/**
 * The walk from a value back to the root of its chain, with its answers kept in
 * a map for every value passed (`contextWrittenFor` in `procedure-routers.ts`).
 */
module ContextMemo {
  import opened Wrappers

  type Node = nat
  type Type = nat

  /** What is to be done at a value: an answer, another value to go back to, or an end. */
  datatype Step = Found(context: Option<Type>) | Goto(next: Node) | Halt

  /** The values of the source; one that is not listed ends a walk. */
  type Source = map<Node, Step>

  function StepAt(source: Source, at: Node): Step {
    if at in source then source[at] else Halt
  }

  /** Where a walk without a memo is after a number of steps. */
  datatype Outcome = Running | Ended(context: Option<Type>)

  function Walked(source: Source, at: Node, steps: nat): Outcome
    decreases steps
  {
    if steps == 0 then Running
    else match StepAt(source, at)
      case Found(context) => Ended(context)
      case Halt => Ended(None)
      case Goto(next) => Walked(source, next, steps - 1)
  }

  /** A walk that has ended stays ended. */
  lemma {:induction false} EndedStays(source: Source, at: Node, steps: nat, more: nat)
    requires Walked(source, at, steps).Ended? && steps <= more
    ensures Walked(source, at, more) == Walked(source, at, steps)
    decreases steps
  {
    if StepAt(source, at).Goto? {
      EndedStays(source, StepAt(source, at).next, steps - 1, more - 1);
    }
  }

  /** What an unbounded walk without a memo finds. */
  ghost predicate Finds(source: Source, at: Node, context: Option<Type>) {
    exists steps: nat :: Walked(source, at, steps) == Ended(context)
  }

  lemma FindsOne(source: Source, at: Node, a: Option<Type>, b: Option<Type>)
    requires Finds(source, at, a) && Finds(source, at, b)
    ensures a == b
  {
    var m: nat :| Walked(source, at, m) == Ended(a);
    var n: nat :| Walked(source, at, n) == Ended(b);
    EndedStays(source, at, m, if m < n then n else m);
    EndedStays(source, at, n, if m < n then n else m);
  }

  lemma FindsNext(source: Source, at: Node, context: Option<Type>)
    requires StepAt(source, at).Goto?
    ensures Finds(source, at, context) <==> Finds(source, StepAt(source, at).next, context)
  {
    var next := StepAt(source, at).next;
    if Finds(source, at, context) {
      var steps: nat :| Walked(source, at, steps) == Ended(context);
      assert Walked(source, next, steps - 1) == Ended(context);
    }
    if Finds(source, next, context) {
      var steps: nat :| Walked(source, next, steps) == Ended(context);
      assert Walked(source, at, steps + 1) == Ended(context);
    }
  }

  /** The bound on the steps of one walk back. */
  const MOST_ROOT_STEPS := 32

  /** Every walk ends within the bound. */
  ghost predicate AllShort(source: Source) {
    forall at :: Walked(source, at, MOST_ROOT_STEPS).Ended?
  }

  /** What the bound alone leaves of an answer: nothing where the root is further back. */
  function WithinBound(source: Source, at: Node): Option<Type> {
    var walked := Walked(source, at, MOST_ROOT_STEPS);
    if walked.Ended? then walked.context else None
  }

  type Memo = map<Node, Option<Type>>

  /** What is remembered is right: every answer, and, where no walk is cut short, every lack of one. */
  ghost predicate Remembers(source: Source, memo: Memo) {
    forall at :: at in memo && (memo[at].Some? || AllShort(source)) ==> Finds(source, at, memo[at])
  }

  class Contexts {
    const source: Source
    var memo: Memo

    constructor (source: Source)
      ensures Valid() && this.source == source && memo == map[]
    {
      this.source := source;
      memo := map[];
    }

    ghost predicate Valid()
      reads this
    {
      Remembers(source, memo)
    }

    /**
     * The context of one receiver. Over any run of queries sharing the memo an
     * answer is the one and only the unbounded walk finds, and nothing is answered
     * only where it finds nothing, unless some walk is longer than the bound: with
     * nothing remembered, the bound alone decides.
     */
    method ContextWrittenFor(receiver: Node) returns (found: Option<Type>)
      requires Valid()
      modifies this`memo
      ensures Valid() && forall at :: at in old(memo) ==> at in memo
      ensures found.Some? || AllShort(source) ==>
                forall context :: Finds(source, receiver, context) <==> context == found
      ensures |old(memo)| == 0 ==> found == WithinBound(source, receiver)
    {
      var visited: seq<Node> := [];
      var at := receiver;
      found := None;
      var step := 0;
      while step < MOST_ROOT_STEPS
        invariant 0 <= step <= MOST_ROOT_STEPS
        invariant found.None? && memo == old(memo)
        invariant forall t :: Finds(source, at, t) ==> AllFind(visited, receiver, t)
        invariant Walked(source, receiver, MOST_ROOT_STEPS) == Walked(source, at, MOST_ROOT_STEPS - step)
      {
        if at in memo {
          found := memo[at];
          break;
        }
        visited := visited + [at];
        assert forall t :: Finds(source, at, t) ==> AllFind(visited, receiver, t);
        match StepAt(source, at) {
          case Found(context) =>
            assert Walked(source, at, 1) == Ended(context);
            found := context;
            break;
          case Halt =>
            assert Walked(source, at, 1) == Ended(None);
            break;
          case Goto(next) =>
            forall t ensures Finds(source, at, t) <==> Finds(source, next, t) { FindsNext(source, at, t); }
            at := next;
        }
        step := step + 1;
      }
      assert (found.Some? || AllShort(source)) ==> Finds(source, at, found);
      if found.Some? || AllShort(source) {
        forall context | Finds(source, receiver, context) ensures context == found {
          FindsOne(source, receiver, context, found);
        }
      }
      for i := 0 to |visited|
        invariant Remembers(source, memo) && forall at :: at in old(memo) ==> at in memo
      {
        memo := memo[visited[i] := found];
      }
    }

    /** A value's answer is that of the receiver and of every value passed. */
    ghost predicate AllFind(visited: seq<Node>, receiver: Node, context: Option<Type>) {
      Finds(source, receiver, context) && forall i | 0 <= i < |visited| :: Finds(source, visited[i], context)
    }
  }
}
