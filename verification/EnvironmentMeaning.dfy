/** What a read of the environment says, against what the expression evaluates to in a run. */
module EnvironmentMeaning {
  import opened Wrappers
  import opened Seqs
  import opened EnvironmentRead

  datatype Value = Undefined | Null | Text(text: string) | TheEnvironment | Thing(id: nat, truthy: bool)

  /**
   * A moment of a run: the environment, what each declaration holds then, what a
   * destructuring took where its text does not fix it, and what every expression
   * not looked into evaluates to.
   */
  datatype Run = Run(
    environment: map<string, string>,
    held: DeclId -> Value,
    loose: DeclId -> Value,
    unknown: Expr -> Value)

  function Lookup(run: Run, variable: string): Value {
    if variable in run.environment then Text(run.environment[variable]) else Undefined
  }

  predicate StandsIn(operator: Operator, value: Value) {
    match operator
    case Nullish => value.Undefined? || value.Null?
    case Missing => value.Undefined?
    case Falsy =>
      value.Undefined? || value.Null? || (value.Text? && |value.text| == 0) || (value.Thing? && !value.truthy)
  }

  function Eval(e: Expr, run: Run): Value {
    match e
    case Environment => TheEnvironment
    case Wrapped(inner) => Eval(inner, run)
    case Either(operator, left, right) =>
      var value := Eval(left, run);
      if StandsIn(operator, value) then Eval(right, run) else value
    case Property(owner, name, declared) =>
      if owner.Environment? then Lookup(run, name)
      else if declared.Some? then run.held(declared.value)
      else run.unknown(e)
    case Element(owner, key) =>
      if key.Literal? && Eval(owner, run).TheEnvironment? then Lookup(run, key.text) else run.unknown(e)
    case Name(declared) => if declared.Some? then run.held(declared.value) else run.unknown(e)
    case Other(_) => run.unknown(e)
  }

  /** What a declaration holds when it is made. */
  function Initial(program: Program, d: DeclId, run: Run): Value {
    match program(d)
    case Taken(_, source, taking, default) =>
      if source.None? then run.held(d)
      else
        var value := if Eval(source.value, run).TheEnvironment? && taking.property.Some?
                     then Lookup(run, taking.property.value) else run.loose(d);
        if default.Some? && StandsIn(Missing, value) then Eval(default.value, run) else value
    case Variable(_, initializer) => if initializer.Some? then Eval(initializer.value, run) else run.held(d)
    case Assigned(_, initializer) => if initializer.Some? then Eval(initializer.value, run) else run.held(d)
    case Unread => run.held(d)
  }

  /** What is read through holds what it was made with. */
  ghost predicate Untouched(program: Program, trail: seq<DeclId>, run: Run) {
    forall i | 0 <= i < |trail| :: run.held(trail[i]) == Initial(program, trail[i], run)
  }

  /** A value, after each fallback it passes has stood in for it or not, the last first. */
  function Outcome(value: Value, fallbacks: seq<Fallback>, run: Run): Value {
    if |fallbacks| == 0 then value
    else
      var inner := Outcome(value, fallbacks[1..], run);
      if StandsIn(fallbacks[0].operator, inner) then Eval(fallbacks[0].value, run) else inner
  }

  lemma {:induction false} OutcomeConcat(value: Value, outer: seq<Fallback>, inner: seq<Fallback>, run: Run)
    ensures Outcome(value, outer + inner, run) == Outcome(Outcome(value, inner, run), outer, run)
  {
    if |outer| == 0 {
      ConcatEmpty(outer, inner);
    } else {
      ConcatTail(outer, inner);
      OutcomeConcat(value, outer[1..], inner, run);
    }
  }

  /** A wrapped expression evaluates to what is inside it, after the fallbacks met on the way. */
  lemma {:induction false} StripKeepsValue(e: Expr, steps: nat, run: Run)
    ensures Eval(e, run) == Outcome(Eval(Strip(e, steps).0, run), Strip(e, steps).1, run)
    decreases steps
  {
    if steps > 0 {
      match e {
        case Wrapped(inner) => StripKeepsValue(inner, steps - 1, run);
        case Either(operator, left, right) =>
          StripKeepsValue(left, steps - 1, run);
          ConsTail(Fallback(operator, right), Strip(left, steps - 1).1);
        case _ =>
      }
    }
  }

  /** No fallback stands in for the environment itself. */
  lemma {:induction false} EnvironmentPasses(fallbacks: seq<Fallback>, run: Run)
    ensures Outcome(TheEnvironment, fallbacks, run) == TheEnvironment
  {
    if |fallbacks| > 0 {
      EnvironmentPasses(fallbacks[1..], run);
    }
  }

  /** The name read out of a destructuring at the end of the trail is the property it takes. */
  predicate TakesWhatItNames(program: Program, trail: seq<DeclId>) {
    |trail| == 0 ||
    var last := program(trail[|trail| - 1]);
    TakesFromEnvironment(last) ==> last.taking.property == Some(last.taking.spelled)
  }

  lemma TakenValue(program: Program, d: DeclId, run: Run)
    requires TakesFromEnvironment(program(d)) && program(d).taking.property == Some(program(d).taking.spelled)
    ensures Initial(program, d, run)
         == Outcome(Lookup(run, program(d).taking.spelled), DefaultOf(program(d).default), run)
  {
    var source := program(d).source.value;
    StripKeepsValue(source, MOST_STEPS, run);
    EnvironmentPasses(Strip(source, MOST_STEPS).1, run);
  }

  /**
   * The value of an expression a variable was found behind is what the
   * environment holds for the variable, after every fallback found in front of it.
   */
  lemma {:induction false} FoundIsValue(program: Program, e: Expr, steps: nat, run: Run)
    requires Follow(program, e, steps).Some?
    requires TakesWhatItNames(program, Follow(program, e, steps).value.trail)
    requires Untouched(program, Follow(program, e, steps).value.trail, run)
    ensures Eval(e, run)
         == Outcome(Lookup(run, Follow(program, e, steps).value.variable), Follow(program, e, steps).value.fallbacks,
             run)
    decreases steps
  {
    var found := Follow(program, e, steps).value;
    var (value, fallbacks) := Strip(e, MOST_STEPS);
    StripKeepsValue(e, MOST_STEPS, run);
    if !OnEnvironment(value) {
      var d := DeclaredBy(value).value;
      assert found.trail[0] == d;
      assert Eval(value, run) == Initial(program, d, run);
      if TakesFromEnvironment(program(d)) {
        TakenValue(program, d, run);
        OutcomeConcat(Lookup(run, found.variable), fallbacks, DefaultOf(program(d).default), run);
      } else {
        var rest := BoundRest(program, e, steps, run);
        FoundIsValue(program, BoundValue(program(d)).value, steps - 1, run);
        OutcomeConcat(Lookup(run, found.variable), fallbacks, rest.fallbacks, run);
      }
    }
  }

  /** Past a declaration that is bound to an expression, the rest is what is found of that expression. */
  lemma BoundRest(program: Program, e: Expr, steps: nat, run: Run) returns (rest: Found)
    requires Follow(program, e, steps).Some? && !OnEnvironment(Strip(e, MOST_STEPS).0)
    requires !TakesFromEnvironment(program(DeclaredBy(Strip(e, MOST_STEPS).0).value))
    requires TakesWhatItNames(program, Follow(program, e, steps).value.trail)
    requires Untouched(program, Follow(program, e, steps).value.trail, run)
    ensures steps > 0 && BoundValue(program(DeclaredBy(Strip(e, MOST_STEPS).0).value)).Some?
    ensures var bound := BoundValue(program(DeclaredBy(Strip(e, MOST_STEPS).0).value)).value;
            Follow(program, bound, steps - 1) == Some(rest)
    ensures Untouched(program, rest.trail, run) && TakesWhatItNames(program, rest.trail)
    ensures Follow(program, e, steps).value.variable == rest.variable
    ensures Follow(program, e, steps).value.fallbacks == Strip(e, MOST_STEPS).1 + rest.fallbacks
  {
    var d := DeclaredBy(Strip(e, MOST_STEPS).0).value;
    rest := Follow(program, BoundValue(program(d)).value, steps - 1).value;
    ConsTail(d, rest.trail);
    RestOfTrail(program, d, rest.trail, run);
  }

  lemma RestOfTrail(program: Program, d: DeclId, rest: seq<DeclId>, run: Run)
    requires Untouched(program, [d] + rest, run) && TakesWhatItNames(program, [d] + rest)
    ensures Untouched(program, rest, run) && TakesWhatItNames(program, rest)
  {
    forall i | 0 <= i < |rest| ensures run.held(rest[i]) == Initial(program, rest[i], run) {
      assert ([d] + rest)[i + 1] == rest[i];
    }
    if |rest| > 0 {
      assert ([d] + rest)[|rest|] == rest[|rest| - 1];
    }
  }

  /** A fallback standing in for a falsy value was met on the way. */
  predicate CrossesOr(fallbacks: seq<Fallback>) {
    exists i | 0 <= i < |fallbacks| :: fallbacks[i].operator.Falsy?
  }

  lemma {:induction false} TextPasses(text: string, fallbacks: seq<Fallback>, run: Run)
    requires |text| > 0 || !CrossesOr(fallbacks)
    ensures Outcome(Text(text), fallbacks, run) == Text(text)
  {
    if |fallbacks| > 0 {
      TextPasses(text, fallbacks[1..], run);
    }
  }
}
