/**
 * Deliveries drawn into the node they enter by (`entryOf`, `reachByName`,
 * `runAsEntry`, the `function` and `workflow` targets and `drawDeliveries` in
 * `deployed-channels.ts`): what a node runs, what it reaches by name and as
 * what, over any run of deliveries.
 */
module Deliveries {
  import opened Wrappers
  import opened Seqs

  type Code = nat

  /** What is reached by a deployed name alone. */
  datatype Reference = Invoke(name: string) | Workflow(name: string)

  /** What a delivery runs. */
  datatype Target =
    | NamedFunction(name: string)
    | LocalFunction(index: nat)
    | WorkflowTarget(name: string)
    | ChannelTarget

  /**
   * How a delivery comes to its node: by its own source, on what a run there ends
   * in, or handed on by a queue whose readers failed.
   */
  datatype Source = Direct | Outcome(when: string) | Redrive

  /** One delivery into a node: how it comes in, what it runs, and the condition on it, if any. */
  datatype Delivery = Delivery(source: Source, target: Target, when: Option<string>)

  /** How the edge a reference becomes is to be drawn. */
  datatype ReachedAs = ReachedAs(triggers: bool, when: Option<string>)

  /** What runs at an entry: a function deployed elsewhere, or code of this repository. */
  datatype Ran = RunsNamed(name: string) | RunsCode(code: Code)

  datatype Edge = Edge(to: nat, reached: ReachedAs)

  /** The functions a deployment creates, and the code of those whose handler is read. */
  datatype Deployment = Deployment(functions: nat, handlerOf: nat -> Option<Code>)

  /** What a delivery's edges and references say of it. */
  function AsOf(d: Delivery): ReachedAs {
    match d.source
    case Direct => ReachedAs(false, d.when)
    case Outcome(when) => ReachedAs(true, Some(when))
    case Redrive => ReachedAs(true, d.when)
  }

  predicate IsPlain(reached: ReachedAs) {
    !reached.triggers && reached.when.None?
  }

  // ---- one delivery, on the state of its node ----

  /**
   * What a node has come to. An entry of its own keeps one list of what it
   * reaches; of any other node each delivery brings a list of its own.
   */
  datatype NodeState = NodeState(
    isEntry: bool,
    runs: Option<Ran>,
    reaches: seq<Reference>,
    reachedAs: map<Reference, ReachedAs>,
    edges: seq<Edge>)

  /** What a target would have an entry run. */
  function Runnable(deployment: Deployment, target: Target): Option<Ran> {
    match target
    case NamedFunction(name) => Some(RunsNamed(name))
    case LocalFunction(index) =>
      if deployment.handlerOf(index).None? then None else Some(RunsCode(deployment.handlerOf(index).value))
    case _ => None
  }

  /** A delivery that an entry may run the function of: its own, on every message. */
  predicate MayRun(deployment: Deployment, isEntry: bool, d: Delivery) {
    isEntry && d.source.Direct? && d.when.None? && Runnable(deployment, d.target).Some?
  }

  /** What is recorded of a reference, once one more delivery reaches it. */
  function Recorded(
      reachedAs: map<Reference, ReachedAs>, plain: bool, reference: Reference,
      reached: ReachedAs): map<Reference, ReachedAs> {
    if plain && reference !in reachedAs then reachedAs
    else if IsPlain(reached) then reachedAs - {reference}
    else reachedAs[reference := reached]
  }

  function Reach(s: NodeState, d: Delivery, reference: Reference): NodeState {
    var plain := s.isEntry && reference in s.reaches;
    s.(reaches := s.reaches + [reference], reachedAs := Recorded(s.reachedAs, plain, reference, AsOf(d)))
  }

  function Step(deployment: Deployment, s: NodeState, d: Delivery): NodeState {
    if s.runs.None? && MayRun(deployment, s.isEntry, d) then s.(runs := Runnable(deployment, d.target))
    else match d.target
      case NamedFunction(name) => Reach(s, d, Invoke(name))
      case LocalFunction(index) => if index < deployment.functions then s.(edges := s.edges + [Edge(index, AsOf(d))])
        else s
      case WorkflowTarget(name) => Reach(s, d, Workflow(name))
      case ChannelTarget => s
  }

  /** A node after a run of deliveries into it. */
  function After(deployment: Deployment, isEntry: bool, run: seq<Delivery>): NodeState {
    if |run| == 0 then NodeState(isEntry, None, [], map[], [])
    else Step(deployment, After(deployment, isEntry, run[..|run| - 1]), run[|run| - 1])
  }

  // ---- the node, as it is updated ----

  /** The list of what a way in reaches: the node's own, or one delivery's. */
  class ReachList {
    var names: seq<Reference>

    constructor ()
      ensures names == []
    {
      names := [];
    }
  }

  /** The node deliveries enter by. */
  class Node {
    const isEntry: bool
    const reaches: ReachList
    var handler: Option<Code>
    var invokes: Option<string>
    var reachedAs: map<Reference, ReachedAs>
    var edges: seq<Edge>

    ghost function Ran(): Option<Ran>
      reads this
    {
      if invokes.Some? then Some(RunsNamed(invokes.value))
      else if handler.Some? then Some(RunsCode(handler.value))
      else None
    }

    ghost function State(): NodeState
      reads this, reaches
    {
      NodeState(isEntry, Ran(), reaches.names, reachedAs, edges)
    }

    constructor (isEntry: bool)
      ensures this.isEntry == isEntry && fresh(reaches)
      ensures forall deployment :: State() == After(deployment, isEntry, [])
    {
      this.isEntry := isEntry;
      reaches := new ReachList();
      handler, invokes, reachedAs, edges := None, None, map[], [];
    }

    /** One delivery drawn to its target. */
    method Draw(deployment: Deployment, d: Delivery)
      modifies this, reaches
      ensures State() == Step(deployment, old(State()), d)
    {
      if d.when.None? && d.source.Direct? {
        var ran := RunAsEntry(deployment, d.target);
        if ran {
          return;
        }
      }
      match d.target {
        case NamedFunction(name) => ReachByName(d, Invoke(name));
        case WorkflowTarget(name) => ReachByName(d, Workflow(name));
        case LocalFunction(index) =>
          if index < deployment.functions {
            edges := edges + [Edge(index, AsOf(d))];
          }
        case ChannelTarget =>
      }
    }

    /** A function as the code an entry runs, when it runs none yet. */
    method RunAsEntry(deployment: Deployment, target: Target) returns (ran: bool)
      modifies this`handler, this`invokes
      ensures ran <==> isEntry && old(Ran()).None? && Runnable(deployment, target).Some?
      ensures Ran() == if ran then Runnable(deployment, target) else old(Ran())
    {
      if !isEntry || handler.Some? || invokes.Some? {
        return false;
      }
      match target {
        case NamedFunction(name) =>
          invokes := Some(name);
          return true;
        case LocalFunction(index) =>
          handler := deployment.handlerOf(index);
          return handler.Some?;
        case _ => return false;
      }
    }

    /** The list a delivery's way in reaches by: an entry's own, or a new one. */
    method ListOf() returns (list: ReachList)
      ensures if isEntry then list == reaches else fresh(list) && list.names == []
    {
      if isEntry {
        return reaches;
      }
      list := new ReachList();
    }

    /** A reference by deployed name; one the way in reaches plainly stays plain. */
    method ReachByName(d: Delivery, reference: Reference)
      modifies this`reachedAs, reaches
      ensures State() == Reach(old(State()), d, reference)
    {
      var list := ListOf();
      var plain := reference in list.names;
      if !isEntry {
        reaches.names := reaches.names + [reference];
      }
      list.names := list.names + [reference];
      var recorded := reachedAs;
      if plain && reference !in recorded {
        return;
      }
      if IsPlain(AsOf(d)) {
        recorded := recorded - {reference};
      } else {
        recorded := recorded[reference := AsOf(d)];
      }
      reachedAs := recorded;
    }
  }

  /** Deliveries into one node, drawn in order. */
  method DrawDeliveries(deployment: Deployment, node: Node, run: seq<Delivery>)
    requires node.State() == After(deployment, node.isEntry, [])
    modifies node, node.reaches
    ensures node.State() == After(deployment, node.isEntry, run)
  {
    for i := 0 to |run|
      invariant node.State() == After(deployment, node.isEntry, run[..i])
    {
      TakeMore(run, i);
      node.Draw(deployment, run[i]);
    }
    assert run[..|run|] == run;
  }
}
