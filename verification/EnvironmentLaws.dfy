/**
 * What a read of the environment promises of every run the language allows, and
 * exactly which reads keep the promise.
 */
module EnvironmentLaws {
  import opened Wrappers
  import opened Seqs
  import opened EnvironmentRead
  import opened EnvironmentMeaning

  predicate IsFixed(declaration: Declaration) {
    !declaration.Unread? && declaration.fixed
  }

  /** A run as the language allows it: what nothing can be assigned to holds what it was made with. */
  ghost predicate Lawful(program: Program, trail: seq<DeclId>, run: Run) {
    forall i | 0 <= i < |trail| :: IsFixed(program(trail[i])) ==> run.held(trail[i]) == Initial(program, trail[i], run)
  }

  /** Nothing read through can be assigned to, and a destructuring at the end names the property it takes. */
  predicate Reliable(program: Program, trail: seq<DeclId>) {
    AllFixed(program, trail) && TakesWhatItNames(program, trail)
  }

  predicate AllFixed(program: Program, trail: seq<DeclId>) {
    forall i | 0 <= i < |trail| :: IsFixed(program(trail[i]))
  }

  /** What is found of an expression, where anything is. */
  function FoundFor(program: Program, e: Expr): Found
    requires Follow(program, e, MOST_STEPS).Some?
  {
    Follow(program, e, MOST_STEPS).value
  }

  // ---- what a reliable read promises ----

  /** The value of a reliable read is the variable's after every fallback found in front of it, in every lawful run. */
  lemma ReliableIsValue(program: Program, e: Expr, run: Run)
    requires Follow(program, e, MOST_STEPS).Some?
    requires Reliable(program, FoundFor(program, e).trail) && Lawful(program, FoundFor(program, e).trail, run)
    ensures Eval(e, run) == Outcome(Lookup(run, FoundFor(program, e).variable), FoundFor(program, e).fallbacks, run)
  {
    FoundIsValue(program, e, MOST_STEPS, run);
  }

  /** Where the variable is set, and not to the empty string behind an `||`, the expression is its value. */
  lemma SetVariableDecides(program: Program, e: Expr, run: Run)
    requires Follow(program, e, MOST_STEPS).Some?
    requires Reliable(program, FoundFor(program, e).trail) && Lawful(program, FoundFor(program, e).trail, run)
    requires FoundFor(program, e).variable in run.environment
    requires |run.environment[FoundFor(program, e).variable]| > 0 || !CrossesOr(FoundFor(program, e).fallbacks)
    ensures Eval(e, run) == Text(run.environment[FoundFor(program, e).variable])
  {
    ReliableIsValue(program, e, run);
    TextPasses(run.environment[FoundFor(program, e).variable], FoundFor(program, e).fallbacks, run);
  }

  /** Where it is unset, the expression is the value of what the reading says is used otherwise. */
  lemma OtherwiseStandsIn(program: Program, e: Expr, run: Run)
    requires Follow(program, e, MOST_STEPS).Some?
    requires Reliable(program, FoundFor(program, e).trail) && Lawful(program, FoundFor(program, e).trail, run)
    requires FoundFor(program, e).variable !in run.environment
    requires ReadFound(Follow(program, e, MOST_STEPS)).value.otherwise.Some?
    ensures Eval(e, run) == Eval(ReadFound(Follow(program, e, MOST_STEPS)).value.otherwise.value, run)
  {
    ReliableIsValue(program, e, run);
  }

  /** Set to the empty string, one fallback decides alone: it stands in exactly when an `||` put it there. */
  lemma EmptyVariable(program: Program, e: Expr, run: Run)
    requires Follow(program, e, MOST_STEPS).Some?
    requires Reliable(program, FoundFor(program, e).trail) && Lawful(program, FoundFor(program, e).trail, run)
    requires FoundFor(program, e).variable in run.environment
    requires |run.environment[FoundFor(program, e).variable]| == 0
    requires ReadFound(Follow(program, e, MOST_STEPS)).value.otherwise.Some?
    ensures Eval(e, run) == if CrossesOr(FoundFor(program, e).fallbacks)
                            then Eval(ReadFound(Follow(program, e, MOST_STEPS)).value.otherwise.value, run)
                            else Text("")
  {
    ReliableIsValue(program, e, run);
  }

  // ---- no declaration comes twice on a trail ----

  /** A trail from one declaration on is the same wherever it is come to. */
  lemma {:induction false} TrailFollows(program: Program, a: Expr, b: Expr, steps: nat, others: nat)
    requires Follow(program, a, steps).Some? && Follow(program, b, others).Some?
    requires |Follow(program, a, steps).value.trail| > 0 && |Follow(program, b, others).value.trail| > 0
    requires Follow(program, a, steps).value.trail[0] == Follow(program, b, others).value.trail[0]
    ensures Follow(program, a, steps).value.trail == Follow(program, b, others).value.trail
    decreases steps
  {
    var d := Follow(program, a, steps).value.trail[0];
    if !TakesFromEnvironment(program(d)) {
      var bound := BoundValue(program(d)).value;
      var rest, other := Follow(program, bound, steps - 1).value, Follow(program, bound, others - 1).value;
      if !OnEnvironment(Strip(bound, MOST_STEPS).0) {
        TrailFollows(program, bound, bound, steps - 1, others - 1);
      }
    }
  }

  /** Where a trail is after so many declarations. */
  lemma {:induction false} TrailFrom(program: Program, e: Expr, steps: nat, i: nat) returns (at: Expr, left: nat)
    requires Follow(program, e, steps).Some? && i < |Follow(program, e, steps).value.trail|
    ensures Follow(program, at, left).Some?
            && Follow(program, at, left).value.trail == Follow(program, e, steps).value.trail[i..]
    ensures Follow(program, at, left).value.variable == Follow(program, e, steps).value.variable
    decreases steps
  {
    var trail := Follow(program, e, steps).value.trail;
    if i == 0 {
      assert trail[0..] == trail;
      return e, steps;
    }
    var d := trail[0];
    var bound := BoundValue(program(d)).value;
    var rest := Follow(program, bound, steps - 1).value;
    assert trail == [d] + rest.trail;
    at, left := TrailFrom(program, bound, steps - 1, i - 1);
    assert trail[i..] == rest.trail[i - 1..];
  }

  lemma TrailRepeatsNothing(program: Program, e: Expr, steps: nat, i: nat, j: nat)
    requires Follow(program, e, steps).Some? && i < |Follow(program, e, steps).value.trail|
             && j < |Follow(program, e, steps).value.trail|
    requires Follow(program, e, steps).value.trail[i] == Follow(program, e, steps).value.trail[j]
    ensures i == j
  {
    var trail := Follow(program, e, steps).value.trail;
    var a, left := TrailFrom(program, e, steps, i);
    var b, other := TrailFrom(program, e, steps, j);
    TrailFollows(program, a, b, left, other);
    assert |trail| - i == |trail| - j;
  }

  // ---- a run in which an unreliable read fails ----

  /** The run where everything read through holds what a misnamed element took. */
  function MisnamedRun(program: Program, d: DeclId): Run
    requires program(d).Taken?
  {
    var taking := program(d).taking;
    var environment := map[taking.spelled := "named"];
    Run(
      if taking.property.Some? then environment[taking.property.value := "taken"] else environment,
      _ => Text("taken"), _ => Text("taken"), _ => Undefined)
  }

  lemma {:induction false} MisnamedUntouched(program: Program, e: Expr, steps: nat, d: DeclId)
    requires program(d).Taken?
    requires Follow(program, e, steps).Some? && |Follow(program, e, steps).value.trail| > 0
    requires Follow(program, e, steps).value.trail[|Follow(program, e, steps).value.trail| - 1] == d
    requires TakesFromEnvironment(program(d)) && program(d).taking.property != Some(program(d).taking.spelled)
    ensures Untouched(program, Follow(program, e, steps).value.trail, MisnamedRun(program, d))
    ensures Eval(e, MisnamedRun(program, d)) == Text("taken")
    decreases steps
  {
    var run := MisnamedRun(program, d);
    var found := Follow(program, e, steps).value;
    var (value, fallbacks) := Strip(e, MOST_STEPS);
    StripKeepsValue(e, MOST_STEPS, run);
    TextPasses("taken", fallbacks, run);
    var first := DeclaredBy(value).value;
    if TakesFromEnvironment(program(first)) {
      var source := program(d).source.value;
      StripKeepsValue(source, MOST_STEPS, run);
      EnvironmentPasses(Strip(source, MOST_STEPS).1, run);
    } else {
      var bound := BoundValue(program(first)).value;
      var rest := Follow(program, bound, steps - 1).value;
      ConsTail(first, rest.trail);
      assert |rest.trail| > 0;
      assert found.trail[|found.trail| - 1] == rest.trail[|rest.trail| - 1];
      MisnamedUntouched(program, bound, steps - 1, d);
      forall i | 0 <= i < |found.trail| ensures run.held(found.trail[i]) == Initial(program, found.trail[i], run) {
        if i > 0 {
          assert found.trail[i] == rest.trail[i - 1];
        }
      }
    }
  }

  /** What is taken out of the environment at the end of a trail is what is named. */
  lemma {:induction false} FoundVariable(program: Program, e: Expr, steps: nat)
    requires Follow(program, e, steps).Some? && |Follow(program, e, steps).value.trail| > 0
    ensures var found := Follow(program, e, steps).value;
            var last := program(found.trail[|found.trail| - 1]);
            TakesFromEnvironment(last) ==> found.variable == last.taking.spelled
    decreases steps
  {
    var value := Strip(e, MOST_STEPS).0;
    var first := DeclaredBy(value).value;
    if !TakesFromEnvironment(program(first)) {
      var bound := BoundValue(program(first)).value;
      var rest := Follow(program, bound, steps - 1).value;
      if |rest.trail| > 0 {
        var found := Follow(program, e, steps).value;
        assert found.trail[|found.trail| - 1] == rest.trail[|rest.trail| - 1];
        FoundVariable(program, bound, steps - 1);
      }
    }
  }

  /** The run where what can be assigned to, and all read through it, was assigned, and what it is made from was not. */
  function AssignedRun(variable: string, after: seq<DeclId>): Run {
    Run(
      map[variable := "deployed"],
      (d: DeclId) => if d in after then Text("deployed") else Text("assigned"),
      _ => Undefined, _ => Undefined)
  }

  /** What a trail ends in holds the variable's value in that run, as far back as it names what it takes. */
  lemma {:induction false} EndHoldsVariable(program: Program, e: Expr, steps: nat, after: seq<DeclId>)
    requires Follow(program, e, steps).Some? && TakesWhatItNames(program, Follow(program, e, steps).value.trail)
    requires forall i | 0 <= i < |Follow(program, e, steps).value.trail| ::
             Follow(program, e, steps).value.trail[i] in after
    ensures Untouched(program, Follow(program, e, steps).value.trail,
            AssignedRun(Follow(program, e, steps).value.variable, after))
    ensures Eval(e, AssignedRun(Follow(program, e, steps).value.variable, after)) == Text("deployed")
    decreases steps
  {
    var found := Follow(program, e, steps).value;
    var run := AssignedRun(found.variable, after);
    var (value, fallbacks) := Strip(e, MOST_STEPS);
    StripKeepsValue(e, MOST_STEPS, run);
    TextPasses("deployed", fallbacks, run);
    if !OnEnvironment(value) {
      var d := DeclaredBy(value).value;
      assert found.trail[0] == d;
      if TakesFromEnvironment(program(d)) {
        TakenValue(program, d, run);
        TextPasses("deployed", DefaultOf(program(d).default), run);
      } else {
        var bound := BoundValue(program(d)).value;
        var rest := Follow(program, bound, steps - 1).value;
        ConsTail(d, rest.trail);
        forall i | 0 <= i < |rest.trail| ensures rest.trail[i] in after {
          assert found.trail[i + 1] == rest.trail[i];
        }
        assert TakesWhatItNames(program, rest.trail) by {
          if |rest.trail| > 0 {
            assert found.trail[|found.trail| - 1] == rest.trail[|rest.trail| - 1];
          }
        }
        EndHoldsVariable(program, bound, steps - 1, after);
        forall i | 0 <= i < |found.trail| ensures run.held(found.trail[i]) == Initial(program, found.trail[i], run) {
          if i > 0 {
            assert found.trail[i] == rest.trail[i - 1];
          }
        }
      }
    }
  }

  /** An expression declared by what holds an assigned text is that text, whatever fallbacks it is written with. */
  lemma AssignedHere(program: Program, e: Expr, steps: nat, variable: string, after: seq<DeclId>)
    requires Follow(program, e, steps).Some? && |Follow(program, e, steps).value.trail| > 0
    requires Follow(program, e, steps).value.trail[0] !in after
    ensures Eval(e, AssignedRun(variable, after)) == Text("assigned")
  {
    var run := AssignedRun(variable, after);
    StripKeepsValue(e, MOST_STEPS, run);
    TextPasses("assigned", Strip(e, MOST_STEPS).1, run);
  }

  /** A declaration before the last of a trail passes on what the next holds. */
  lemma PassesNext(program: Program, at: Expr, left: nat, variable: string, after: seq<DeclId>)
    requires Follow(program, at, left).Some? && |Follow(program, at, left).value.trail| > 1
    requires Follow(program, at, left).value.trail[1] !in after
    ensures Initial(program, Follow(program, at, left).value.trail[0], AssignedRun(variable, after)) == Text("assigned")
  {
    var d := Follow(program, at, left).value.trail[0];
    var bound := BoundValue(program(d)).value;
    var rest := Follow(program, bound, left - 1).value;
    ConsTail(d, rest.trail);
    AssignedHere(program, bound, left - 1, variable, after);
  }

  lemma AllAfter(trail: seq<DeclId>, k: nat, i: nat)
    requires k < i < |trail|
    ensures forall j | 0 <= j < |trail[i..]| :: trail[i..][j] in trail[k + 1..]
    ensures trail[i..][|trail[i..]| - 1] == trail[|trail| - 1]
  {
    forall j | 0 <= j < |trail[i..]| ensures trail[i..][j] in trail[k + 1..] {
      assert trail[k + 1..][i + j - k - 1] == trail[i..][j];
    }
  }

  /**
   * Where the last that can be assigned to was, and all before it read that,
   * every fixed declaration holds what it was made with.
   */
  lemma AssignedIsLawful(program: Program, e: Expr, k: nat, i: nat)
    requires Follow(program, e, MOST_STEPS).Some? && TakesWhatItNames(program, FoundFor(program, e).trail)
    requires k < |FoundFor(program, e).trail| && !IsFixed(program(FoundFor(program, e).trail[k]))
    requires forall j | 0 <= j <= k :: FoundFor(program, e).trail[j] !in FoundFor(program, e).trail[k + 1..]
    requires i < |FoundFor(program, e).trail| && i != k
    ensures var run := AssignedRun(FoundFor(program, e).variable, FoundFor(program, e).trail[k + 1..]);
            run.held(FoundFor(program, e).trail[i]) == Initial(program, FoundFor(program, e).trail[i], run)
  {
    var trail, variable := FoundFor(program, e).trail, FoundFor(program, e).variable;
    var after := trail[k + 1..];
    var at, left := TrailFrom(program, e, MOST_STEPS, i);
    assert trail[i..][0] == trail[i];
    if i < k {
      assert trail[i..][1] == trail[i + 1];
      PassesNext(program, at, left, variable, after);
    } else {
      AllAfter(trail, k, i);
      EndHoldsVariable(program, at, left, after);
    }
  }

  /** A trail on which something can be assigned to has a lawful run where the variable does not decide. */
  lemma SomeRunAssigns(program: Program, e: Expr)
    requires Follow(program, e, MOST_STEPS).Some?
    requires TakesWhatItNames(program, FoundFor(program, e).trail) && !AllFixed(program, FoundFor(program, e).trail)
    ensures exists run: Run :: Fails(program, e, run)
  {
    var trail := FoundFor(program, e).trail;
    var k := LastLoose(program, trail);
    var after := trail[k + 1..];
    forall i | 0 <= i <= k ensures trail[i] !in after {
      if trail[i] in after {
        var j :| 0 <= j < |after| && after[j] == trail[i];
        TrailRepeatsNothing(program, e, MOST_STEPS, i, k + 1 + j);
      }
    }
    forall i | 0 <= i < |trail| && IsFixed(program(trail[i]))
      ensures AssignedRun(FoundFor(program, e).variable, after).held(trail[i])
           == Initial(program, trail[i], AssignedRun(FoundFor(program, e).variable, after))
    {
      AssignedIsLawful(program, e, k, i);
    }
    AssignedHere(program, e, MOST_STEPS, FoundFor(program, e).variable, after);
    assert "assigned"[0] != "deployed"[0];
    assert Fails(program, e, AssignedRun(FoundFor(program, e).variable, after));
  }

  lemma {:induction false} LastLoose(program: Program, trail: seq<DeclId>) returns (k: nat)
    requires !AllFixed(program, trail)
    ensures k < |trail| && !IsFixed(program(trail[k]))
    ensures forall i | k < i < |trail| :: IsFixed(program(trail[i]))
  {
    k := |trail| - 1;
    if IsFixed(program(trail[k])) {
      var init := trail[..k];
      assert !AllFixed(program, init);
      k := LastLoose(program, init);
    }
  }

  // ---- exactly when the named variable decides ----

  /** A lawful run where the variable is set to some text and the expression is not that. */
  ghost predicate Fails(program: Program, e: Expr, run: Run)
    requires Follow(program, e, MOST_STEPS).Some?
  {
    && Lawful(program, FoundFor(program, e).trail, run)
    && FoundFor(program, e).variable in run.environment
    && |run.environment[FoundFor(program, e).variable]| > 0
    && Eval(e, run) != Text(run.environment[FoundFor(program, e).variable])
  }

  /**
   * The variable named decides the value in every lawful run where it is set to
   * some text exactly when nothing read through can be assigned to and a
   * destructuring at the end, if there is one, names the property it takes: a
   * rest element, a quoted name and a computed one do not.
   */
  lemma NamedVariableDecides(program: Program, e: Expr)
    requires Follow(program, e, MOST_STEPS).Some?
    ensures (forall run: Run :: !Fails(program, e, run)) <==> Reliable(program, FoundFor(program, e).trail)
  {
    var found := FoundFor(program, e);
    if Reliable(program, found.trail) {
      forall run: Run ensures !Fails(program, e, run) {
        if Lawful(program, found.trail, run) && found.variable in run.environment
          && |run.environment[found.variable]| > 0 {
          SetVariableDecides(program, e, run);
        }
      }
    } else if !TakesWhatItNames(program, found.trail) {
      var d := found.trail[|found.trail| - 1];
      FoundVariable(program, e, MOST_STEPS);
      MisnamedUntouched(program, e, MOST_STEPS, d);
      assert "named"[0] != "taken"[0];
      assert MisnamedRun(program, d).environment[found.variable] == "named";
      assert Fails(program, e, MisnamedRun(program, d));
    } else {
      SomeRunAssigns(program, e);
    }
  }

  /** A run where the expression is not the variable's value after the fallbacks found. */
  ghost predicate Misread(program: Program, e: Expr, run: Run)
    requires Follow(program, e, MOST_STEPS).Some?
  {
    && Lawful(program, FoundFor(program, e).trail, run)
    && Eval(e, run) != Outcome(Lookup(run, FoundFor(program, e).variable), FoundFor(program, e).fallbacks, run)
  }

  /** Set, unset or empty, the reading is right in every lawful run exactly when it is reliable. */
  lemma RightExactlyWhenReliable(program: Program, e: Expr)
    requires Follow(program, e, MOST_STEPS).Some?
    ensures (forall run: Run :: !Misread(program, e, run)) <==> Reliable(program, FoundFor(program, e).trail)
  {
    var found := FoundFor(program, e);
    NamedVariableDecides(program, e);
    if Reliable(program, found.trail) {
      forall run: Run ensures !Misread(program, e, run) {
        if Lawful(program, found.trail, run) {
          ReliableIsValue(program, e, run);
        }
      }
    } else {
      var run: Run :| Fails(program, e, run);
      TextPasses(run.environment[found.variable], found.fallbacks, run);
      assert Misread(program, e, run);
    }
  }

  // ---- a record that can be assigned to ----

  /** A record with one property read from the environment, constant or not. */
  function OneProperty(fixed: bool): Program {
    (d: DeclId) => if d == 0 then Assigned(fixed, Some(Property(Environment, "URL", None))) else Unread
  }

  const THE_PROPERTY := Property(Name(None), "url", Some(0))

  /**
   * The reader names the variable whether or not the record can be assigned to.
   * Where it can, the run that assigned to the property is lawful and fails;
   * where it cannot, no lawful run does.
   */
  lemma AssignedSince()
    ensures forall fixed :: Follow(OneProperty(fixed), THE_PROPERTY, MOST_STEPS) == Some(Found("URL", [], [0]))
    ensures Fails(OneProperty(false), THE_PROPERTY, AssignedRun("URL", []))
    ensures forall run: Run :: !Fails(OneProperty(true), THE_PROPERTY, run)
  {
    forall fixed ensures Follow(OneProperty(fixed), THE_PROPERTY, MOST_STEPS) == Some(Found("URL", [], [0])) {
      var bound := Property(Environment, "URL", None);
      assert Strip(bound, MOST_STEPS) == (bound, []);
      assert Follow(OneProperty(fixed), bound, MOST_STEPS - 1) == Some(Found("URL", [], []));
      assert Strip(THE_PROPERTY, MOST_STEPS) == (THE_PROPERTY, []);
      assert OneProperty(fixed)(0) == Assigned(fixed, Some(bound)) && !TakesFromEnvironment(OneProperty(fixed)(0));
      var none: seq<Fallback> := [];
      var trail: seq<DeclId> := [];
      ConcatEmpty(none, none);
      ConcatEmpty([0], trail);
    }
    assert "assigned"[0] != "deployed"[0];
    NamedVariableDecides(OneProperty(true), THE_PROPERTY);
  }
}
