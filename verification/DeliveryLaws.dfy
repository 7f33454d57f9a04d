/** What holds of a node after any run of deliveries into it. */
module DeliveryLaws {
  import opened Wrappers
  import opened Seqs
  import opened Deliveries

  // ---- what runs ----

  /** The delivery whose function the entry runs: the first that may be run. */
  predicate RanBy(deployment: Deployment, isEntry: bool, run: seq<Delivery>, i: nat)
    requires i < |run|
  {
    MayRun(deployment, isEntry, run[i]) && forall j | 0 <= j < i :: !MayRun(deployment, isEntry, run[j])
  }

  lemma RunSnoc(deployment: Deployment, isEntry: bool, run: seq<Delivery>)
    requires |run| > 0
    ensures forall i | 0 <= i < |run| - 1 ::
            RanBy(deployment, isEntry, run[..|run| - 1], i) <==> RanBy(deployment, isEntry, run, i)
  {
  }

  /** An entry runs a function exactly when some delivery may be run, and then the first such delivery's. */
  lemma {:induction false} RunsTheFirst(deployment: Deployment, isEntry: bool, run: seq<Delivery>)
    ensures After(deployment, isEntry, run).isEntry == isEntry
    ensures After(deployment, isEntry, run).runs.None?
       <==> forall i | 0 <= i < |run| :: !MayRun(deployment, isEntry, run[i])
    ensures forall i | 0 <= i < |run| ::
              RanBy(deployment, isEntry, run, i)
              ==> After(deployment, isEntry, run).runs == Runnable(deployment, run[i].target)
  {
    if |run| > 0 {
      var init := run[..|run| - 1];
      RunsTheFirst(deployment, isEntry, init);
      RunSnoc(deployment, isEntry, run);
      assert forall i | 0 <= i < |init| :: init[i] == run[i];
    }
  }

  /** One more delivery changes what a node runs exactly where it is the one whose function is run. */
  lemma ChangesWhatRuns(deployment: Deployment, isEntry: bool, run: seq<Delivery>, i: nat)
    requires i < |run|
    ensures After(deployment, isEntry, run[..i + 1]).runs != After(deployment, isEntry, run[..i]).runs
       <==> RanBy(deployment, isEntry, run, i)
  {
    TakeMore(run, i);
    RunsTheFirst(deployment, isEntry, run[..i]);
    assert forall j | 0 <= j < i :: run[..i][j] == run[j];
    assert RanBy(deployment, isEntry, run, i)
      <==> After(deployment, isEntry, run[..i]).runs.None? && MayRun(deployment, isEntry, run[i]);
  }

  /**
   * Over any run of deliveries what a node runs changes at most once, and then
   * at an entry, by a delivery of its own on every message: never by an error
   * action, and never on an outcome.
   */
  lemma RunsAtMostOne(deployment: Deployment, isEntry: bool, run: seq<Delivery>, i: nat, j: nat)
    requires i < |run| && j < |run|
    requires After(deployment, isEntry, run[..i + 1]).runs != After(deployment, isEntry, run[..i]).runs
    requires After(deployment, isEntry, run[..j + 1]).runs != After(deployment, isEntry, run[..j]).runs
    ensures i == j && isEntry && run[i].when.None? && run[i].source.Direct?
  {
    ChangesWhatRuns(deployment, isEntry, run, i);
    ChangesWhatRuns(deployment, isEntry, run, j);
  }

  // ---- what is reached by name ----

  /** The reference a delivery is drawn as, where it is drawn as one. */
  function ReferenceOf(deployment: Deployment, isEntry: bool, run: seq<Delivery>, i: nat): Option<Reference>
    requires i < |run|
  {
    match run[i].target
    case NamedFunction(name) => if RanBy(deployment, isEntry, run, i) then None else Some(Invoke(name))
    case WorkflowTarget(name) => Some(Workflow(name))
    case _ => None
  }

  predicate ReachesBy(deployment: Deployment, isEntry: bool, run: seq<Delivery>, i: nat, reference: Reference)
    requires i < |run|
  {
    ReferenceOf(deployment, isEntry, run, i) == Some(reference)
  }

  ghost predicate Reached(deployment: Deployment, isEntry: bool, run: seq<Delivery>, reference: Reference) {
    exists i | 0 <= i < |run| :: ReachesBy(deployment, isEntry, run, i, reference)
  }

  ghost predicate ReachedPlainly(deployment: Deployment, isEntry: bool, run: seq<Delivery>, reference: Reference) {
    exists i | 0 <= i < |run| :: ReachesBy(deployment, isEntry, run, i, reference) && IsPlain(AsOf(run[i]))
  }

  /** The last delivery to reach a reference. */
  predicate LastToReach(deployment: Deployment, isEntry: bool, run: seq<Delivery>, i: nat, reference: Reference)
    requires i < |run|
  {
    ReachesBy(deployment, isEntry, run, i, reference) && forall j | i < j < |run| ::
        !ReachesBy(deployment, isEntry, run, j, reference)
  }

  lemma ReachesSnoc(deployment: Deployment, isEntry: bool, run: seq<Delivery>, reference: Reference)
    requires |run| > 0
    ensures forall i | 0 <= i < |run| - 1 ::
              ReachesBy(deployment, isEntry, run[..|run| - 1], i, reference)
              <==> ReachesBy(deployment, isEntry, run, i, reference)
  {
    RunSnoc(deployment, isEntry, run);
  }

  /** The last delivery as a step of the node: it runs, is a reference, or is neither. */
  lemma LastStep(deployment: Deployment, isEntry: bool, run: seq<Delivery>)
    requires |run| > 0
    ensures var before := After(deployment, isEntry, run[..|run| - 1]);
            var last := run[|run| - 1];
            var reference := ReferenceOf(deployment, isEntry, run, |run| - 1);
            && After(deployment, isEntry, run).reaches
            == before.reaches + (if reference.None? then [] else [reference.value])
            && After(deployment, isEntry, run).reachedAs
               == if reference.None? then before.reachedAs
                  else Recorded(before.reachedAs, isEntry
                      && reference.value in before.reaches, reference.value, AsOf(last))
  {
    RanLast(deployment, isEntry, run);
    StepReaches(deployment, After(deployment, isEntry, run[..|run| - 1]), run[|run| - 1]);
  }

  /** The last delivery is run where none before it was and it may be. */
  lemma RanLast(deployment: Deployment, isEntry: bool, run: seq<Delivery>)
    requires |run| > 0
    ensures var before := After(deployment, isEntry, run[..|run| - 1]);
            before.isEntry == isEntry
            && (RanBy(deployment, isEntry, run, |run| - 1)
                <==> before.runs.None? && MayRun(deployment, isEntry, run[|run| - 1]))
  {
    var init := run[..|run| - 1];
    RunsTheFirst(deployment, isEntry, init);
    assert forall i | 0 <= i < |init| :: init[i] == run[i];
  }

  /** What a step has an entry run. */
  predicate Runs(deployment: Deployment, s: NodeState, d: Delivery) {
    s.runs.None? && MayRun(deployment, s.isEntry, d)
  }

  /** What a step reaches by name. */
  function Reaching(deployment: Deployment, s: NodeState, d: Delivery): Option<Reference> {
    match d.target
    case NamedFunction(name) => if Runs(deployment, s, d) then None else Some(Invoke(name))
    case WorkflowTarget(name) => Some(Workflow(name))
    case _ => None
  }

  lemma StepReaches(deployment: Deployment, s: NodeState, d: Delivery)
    ensures var reference := Reaching(deployment, s, d);
            var next := Step(deployment, s, d);
            && next.reaches == s.reaches + (if reference.None? then [] else [reference.value])
            && next.reachedAs
               == if reference.None? then s.reachedAs
                  else Recorded(s.reachedAs, s.isEntry && reference.value in s.reaches, reference.value, AsOf(d))
  {
    ConcatEmpty(s.reaches, []);
  }

  lemma {:induction false} ReachesExactly(
      deployment: Deployment, isEntry: bool, run: seq<Delivery>, reference: Reference)
    ensures reference in After(deployment, isEntry, run).reaches <==> Reached(deployment, isEntry, run, reference)
  {
    if |run| > 0 {
      ReachesExactly(deployment, isEntry, run[..|run| - 1], reference);
      LastStep(deployment, isEntry, run);
      ReachedSnoc(deployment, isEntry, run, reference);
    }
  }

  /** What one more delivery adds to what is reached, and reached plainly. */
  lemma ReachedSnoc(deployment: Deployment, isEntry: bool, run: seq<Delivery>, reference: Reference)
    requires |run| > 0
    ensures Reached(deployment, isEntry, run, reference)
       <==> Reached(deployment, isEntry, run[..|run| - 1], reference)
            || ReachesBy(deployment, isEntry, run, |run| - 1, reference)
    ensures ReachedPlainly(deployment, isEntry, run, reference)
       <==> ReachedPlainly(deployment, isEntry, run[..|run| - 1], reference)
            || (ReachesBy(deployment, isEntry, run, |run| - 1, reference) && IsPlain(AsOf(run[|run| - 1])))
  {
    var init := run[..|run| - 1];
    ReachesSnoc(deployment, isEntry, run, reference);
    assert forall i | 0 <= i < |init| :: init[i] == run[i];
    if i :| 0 <= i < |init| && ReachesBy(deployment, isEntry, init, i, reference) && IsPlain(AsOf(init[i])) {
      assert ReachesBy(deployment, isEntry, run, i, reference) && IsPlain(AsOf(run[i]));
    }
    if i :| 0 <= i < |init| && ReachesBy(deployment, isEntry, init, i, reference) {
      assert ReachesBy(deployment, isEntry, run, i, reference);
    }
  }

  /** An earlier delivery stays the last to reach a name unless one more reaches it. */
  lemma LastSnoc(deployment: Deployment, isEntry: bool, run: seq<Delivery>, reference: Reference, i: nat)
    requires i < |run| - 1
    ensures LastToReach(deployment, isEntry, run, i, reference)
       <==> LastToReach(deployment, isEntry, run[..|run| - 1], i, reference)
            && !ReachesBy(deployment, isEntry, run, |run| - 1, reference)
  {
    var init := run[..|run| - 1];
    ReachesSnoc(deployment, isEntry, run, reference);
    if LastToReach(deployment, isEntry, run, i, reference) {
      forall j | i < j < |init| ensures !ReachesBy(deployment, isEntry, init, j, reference) {
        assert !ReachesBy(deployment, isEntry, run, j, reference);
      }
    }
    if LastToReach(deployment, isEntry, init, i, reference) && !ReachesBy(deployment, isEntry, run, |init|, reference) {
      forall j | i < j < |run| ensures !ReachesBy(deployment, isEntry, run, j, reference) {
        assert j < |init| ==> !ReachesBy(deployment, isEntry, init, j, reference);
      }
    }
  }

  /**
   * Of an entry an outcome is recorded for a name exactly when some delivery
   * reached the name and none so far reached it plainly, and it is the last one's.
   */
  lemma {:induction false} OutcomeRecordedExactly(deployment: Deployment, run: seq<Delivery>, reference: Reference)
    ensures reference in After(deployment, true, run).reachedAs
       <==> Reached(deployment, true, run, reference) && !ReachedPlainly(deployment, true, run, reference)
    ensures reference in After(deployment, true, run).reachedAs ==>
              forall i | 0 <= i < |run| && LastToReach(deployment, true, run, i, reference) ::
                After(deployment, true, run).reachedAs[reference] == AsOf(run[i])
  {
    if |run| > 0 {
      var init := run[..|run| - 1];
      OutcomeRecordedExactly(deployment, init, reference);
      ReachesExactly(deployment, true, init, reference);
      LastStep(deployment, true, run);
      ReachedSnoc(deployment, true, run, reference);
      assert forall i | 0 <= i < |init| :: init[i] == run[i];
      forall i | 0 <= i < |init|
        ensures LastToReach(deployment, true, run, i, reference) ==>
                  LastToReach(deployment, true, init, i, reference)
                      && !ReachesBy(deployment, true, run, |init|, reference)
      {
        LastSnoc(deployment, true, run, reference, i);
      }
    }
  }

  /** Of any other node it is recorded exactly when the last delivery to reach the name carries one. */
  lemma {:induction false} OtherNodesKeepTheLast(deployment: Deployment, run: seq<Delivery>, reference: Reference)
    ensures reference in After(deployment, false, run).reachedAs
       <==> exists i | 0 <= i < |run| :: LastToReach(deployment, false, run, i, reference) && !IsPlain(AsOf(run[i]))
    ensures reference in After(deployment, false, run).reachedAs ==>
              forall i | 0 <= i < |run| && LastToReach(deployment, false, run, i, reference) ::
                After(deployment, false, run).reachedAs[reference] == AsOf(run[i])
  {
    if |run| > 0 {
      var init, last := run[..|run| - 1], |run| - 1;
      OtherNodesKeepTheLast(deployment, init, reference);
      LastStep(deployment, false, run);
      assert forall i | 0 <= i < |init| :: init[i] == run[i];
      forall i | 0 <= i < |init|
        ensures LastToReach(deployment, false, run, i, reference)
           <==> LastToReach(deployment, false, init, i, reference)
                && !ReachesBy(deployment, false, run, last, reference)
      {
        LastSnoc(deployment, false, run, reference, i);
      }
      if ReachesBy(deployment, false, run, last, reference) {
        assert LastToReach(deployment, false, run, last, reference);
      } else if reference in After(deployment, false, init).reachedAs {
        var i :| 0 <= i < |init| && LastToReach(deployment, false, init, i, reference) && !IsPlain(AsOf(init[i]));
        assert LastToReach(deployment, false, run, i, reference);
      }
    }
  }

  lemma {:induction false} SomeLastReaches(
      deployment: Deployment, isEntry: bool, run: seq<Delivery>, reference: Reference, i: nat)
    returns (last: nat)
    requires i < |run| && ReachesBy(deployment, isEntry, run, i, reference)
    ensures i <= last < |run| && LastToReach(deployment, isEntry, run, last, reference)
    decreases |run| - i
  {
    last := i;
    if j :| i < j < |run| && ReachesBy(deployment, isEntry, run, j, reference) {
      last := SomeLastReaches(deployment, isEntry, run, reference, j);
    }
  }

  /**
   * So what holds of an entry, that an outcome is recorded for a name exactly when
   * it was reached and never plainly, holds of any other node exactly when it is
   * not so that some delivery reached the name plainly and the last one to reach
   * it did not.
   */
  lemma OtherNodesKeepPlainExactly(deployment: Deployment, run: seq<Delivery>, reference: Reference)
    ensures (reference in After(deployment, false, run).reachedAs
             <==> Reached(deployment, false, run, reference) && !ReachedPlainly(deployment, false, run, reference))
       <==> !(ReachedPlainly(deployment, false, run, reference)
              && exists i | 0 <= i < |run| ::
                 LastToReach(deployment, false, run, i, reference) && !IsPlain(AsOf(run[i])))
  {
    OtherNodesKeepTheLast(deployment, run, reference);
    if i :| 0 <= i < |run| && ReachesBy(deployment, false, run, i, reference) {
      var last := SomeLastReaches(deployment, false, run, reference, i);
      assert IsPlain(AsOf(run[last])) ==> ReachedPlainly(deployment, false, run, reference);
    }
  }

  /** A consumer that reaches a name plainly, and again where its run fails, claims the outcome for both. */
  lemma ConsumerForgetsPlain(deployment: Deployment, name: string, when: string)
    ensures var run := [Delivery(Direct, NamedFunction(name), None),
            Delivery(Outcome(when), NamedFunction(name), None)];
            && ReachedPlainly(deployment, false, run, Invoke(name))
            && Invoke(name) in After(deployment, false, run).reachedAs
  {
    var run := [Delivery(Direct, NamedFunction(name), None), Delivery(Outcome(when), NamedFunction(name), None)];
    assert ReachesBy(deployment, false, run, 0, Invoke(name)) && IsPlain(AsOf(run[0]));
    assert ReachesBy(deployment, false, run, 1, Invoke(name)) && !IsPlain(AsOf(run[1]));
    assert LastToReach(deployment, false, run, 1, Invoke(name));
    OtherNodesKeepTheLast(deployment, run, Invoke(name));
  }

  // ---- every function delivery is drawn ----

  predicate IsFunction(target: Target) {
    target.NamedFunction? || target.LocalFunction?
  }

  /** The edge a delivery is drawn as, where it is drawn as one. */
  function EdgeOf(deployment: Deployment, isEntry: bool, run: seq<Delivery>, i: nat): Option<Edge>
    requires i < |run|
  {
    match run[i].target
    case LocalFunction(index) =>
      if RanBy(deployment, isEntry, run, i) || index >= deployment.functions then None
      else Some(Edge(index, AsOf(run[i])))
    case _ => None
  }

  function Listed<T>(one: Option<T>): seq<T> {
    if one.None? then [] else [one.value]
  }

  function ReferencesOf(deployment: Deployment, isEntry: bool, run: seq<Delivery>): seq<Reference> {
    if |run| == 0 then []
    else ReferencesOf(deployment, isEntry, run[..|run| - 1]) + Listed(ReferenceOf(deployment, isEntry, run, |run| - 1))
  }

  function EdgesOf(deployment: Deployment, isEntry: bool, run: seq<Delivery>): seq<Edge> {
    if |run| == 0 then []
    else EdgesOf(deployment, isEntry, run[..|run| - 1]) + Listed(EdgeOf(deployment, isEntry, run, |run| - 1))
  }

  /** A node's references and edges are those its deliveries are drawn as, in order. */
  lemma {:induction false} DrawnInOrder(deployment: Deployment, isEntry: bool, run: seq<Delivery>)
    ensures After(deployment, isEntry, run).reaches == ReferencesOf(deployment, isEntry, run)
    ensures After(deployment, isEntry, run).edges == EdgesOf(deployment, isEntry, run)
  {
    if |run| > 0 {
      var init, last := run[..|run| - 1], run[|run| - 1];
      DrawnInOrder(deployment, isEntry, init);
      LastStep(deployment, isEntry, run);
      RanLast(deployment, isEntry, run);
      ConcatEmpty(EdgesOf(deployment, isEntry, init), []);
    }
  }

  function CountOf(yes: bool): nat {
    if yes then 1 else 0
  }

  function Functions(run: seq<Delivery>): nat {
    if |run| == 0 then 0 else Functions(run[..|run| - 1]) + CountOf(IsFunction(run[|run| - 1].target))
  }

  function Invokes(reaches: seq<Reference>): nat {
    if |reaches| == 0 then 0 else Invokes(reaches[..|reaches| - 1]) + CountOf(reaches[|reaches| - 1].Invoke?)
  }

  /** Deliveries to a function the deployment does not create and the entry does not run. */
  function Lost(deployment: Deployment, isEntry: bool, run: seq<Delivery>): nat {
    if |run| == 0 then 0
    else
      var last := run[|run| - 1];
      Lost(deployment, isEntry, run[..|run| - 1]) +
      CountOf(IsLost(deployment, last) && !RanBy(deployment, isEntry, run, |run| - 1))
  }

  /**
   * Every function delivery is run, drawn as a reference or drawn as an edge,
   * and only one of them; but for a function the deployment does not create,
   * which nothing is drawn for.
   */
  lemma {:induction false} EveryFunctionDrawnOnce(deployment: Deployment, isEntry: bool, run: seq<Delivery>)
    ensures Functions(run)
         == CountOf(After(deployment, isEntry, run).runs.Some?) + Invokes(After(deployment, isEntry, run).reaches)
            + |After(deployment, isEntry, run).edges| + Lost(deployment, isEntry, run)
  {
    if |run| > 0 {
      var init, last := run[..|run| - 1], run[|run| - 1];
      EveryFunctionDrawnOnce(deployment, isEntry, init);
      RanLast(deployment, isEntry, run);
      StepDrawsOnce(deployment, After(deployment, isEntry, init), last);
    }
  }

  predicate IsLost(deployment: Deployment, d: Delivery) {
    d.target.LocalFunction? && d.target.index >= deployment.functions
  }

  /** One delivery of a function adds one to what is run, reached, drawn or lost. */
  lemma StepDrawsOnce(deployment: Deployment, s: NodeState, d: Delivery)
    ensures var next := Step(deployment, s, d);
            (CountOf(next.runs.Some?) + Invokes(next.reaches) + |next.edges|
             + CountOf(IsLost(deployment, d) && !Runs(deployment, s, d))
             == CountOf(s.runs.Some?) + Invokes(s.reaches) + |s.edges| + CountOf(IsFunction(d.target)))
  {
    match d.target {
      case NamedFunction(name) => InvokesMore(s.reaches, Invoke(name));
      case WorkflowTarget(name) => InvokesMore(s.reaches, Workflow(name));
      case _ =>
    }
  }

  lemma InvokesMore(reaches: seq<Reference>, reference: Reference)
    ensures Invokes(reaches + [reference]) == Invokes(reaches) + CountOf(reference.Invoke?)
  {
    assert (reaches + [reference])[..|reaches|] == reaches;
  }
}
