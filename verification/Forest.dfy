/**
 * Which calls assembled a tree of procedures, and which of the trees are roots
 * (`Forest` in `procedure-routers.ts`).
 */
module Forests {
  import opened Wrappers
  import opened Seqs

  /** A node of the source: a call, or the value a member stands for. */
  type Node = nat

  /** A member of a tree: its key, when it is one a reader can name, and what it stands for. */
  datatype Member = Member(key: Option<string>, value: Node)

  /** A call handed an object literal, and the members of the literal. */
  datatype Tree = Tree(call: Node, members: seq<Member>)

  type Candidates = map<Node, Tree>

  /** Every candidate is kept under the call that assembled it. */
  ghost predicate KeyedByCall(candidates: Candidates) {
    forall call :: call in candidates ==> candidates[call].call == call
  }

  /** One candidate is a member of another. */
  predicate Holds(candidates: Candidates, holder: Node, held: Node) {
    && holder in candidates && held in candidates
    && exists i | 0 <= i < |candidates[holder].members| :: candidates[holder].members[i].value == held
  }

  /** A candidate one of whose members is a way in. */
  predicate HoldsEnding(candidates: Candidates, endings: set<Node>, call: Node) {
    && call in candidates
    && exists i | 0 <= i < |candidates[call].members| :: candidates[call].members[i].value in endings
  }

  /** A descent from one candidate to the next through members. */
  ghost predicate IsDescent(candidates: Candidates, descent: seq<Node>) {
    |descent| >= 1 && forall i | 0 <= i < |descent| - 1 :: Holds(candidates, descent[i], descent[i + 1])
  }

  /** A candidate from which some descent comes to a way in. */
  ghost predicate ReachesEnding(candidates: Candidates, endings: set<Node>, call: Node) {
    exists descent :: IsDescent(candidates, descent) && descent[0] == call
                      && HoldsEnding(candidates, endings, descent[|descent| - 1])
  }

  ghost function EndingHolders(candidates: Candidates, endings: set<Node>): set<Node> {
    set call | call in candidates && HoldsEnding(candidates, endings, call)
  }

  /** The trees: a function of the candidates alone, whatever order they were added in. */
  ghost function TreesOf(candidates: Candidates, endings: set<Node>): set<Node> {
    set call | call in candidates && ReachesEnding(candidates, endings, call)
  }

  ghost function HeldOf(candidates: Candidates, endings: set<Node>): set<Node> {
    set held, holder | holder in TreesOf(candidates, endings) && held in TreesOf(candidates, endings)
                       && Holds(candidates, holder, held) :: held
  }

  /** Holding every candidate with a way in, and every candidate that holds one of its own. */
  ghost predicate IsClosed(candidates: Candidates, endings: set<Node>, s: set<Node>) {
    && (forall call :: HoldsEnding(candidates, endings, call) ==> call in s)
    && (forall holder, held :: Holds(candidates, holder, held) && held in s ==> holder in s)
  }

  /** The trees are the least set closed under the two rules that make a tree. */
  lemma {:induction false} TreesAreLeast(candidates: Candidates, endings: set<Node>, s: set<Node>)
    ensures IsClosed(candidates, endings, TreesOf(candidates, endings))
    ensures IsClosed(candidates, endings, s) ==> TreesOf(candidates, endings) <= s
  {
    forall call | HoldsEnding(candidates, endings, call) ensures call in TreesOf(candidates, endings) {
      assert IsDescent(candidates, [call]);
    }
    forall holder, held | Holds(candidates, holder, held) && held in TreesOf(candidates, endings)
      ensures holder in TreesOf(candidates, endings)
    {
      HolderReaches(candidates, endings, holder, held);
    }
    if IsClosed(candidates, endings, s) {
      forall call | call in TreesOf(candidates, endings) ensures call in s {
        var descent :| IsDescent(candidates, descent) && descent[0] == call
                       && HoldsEnding(candidates, endings, descent[|descent| - 1]);
        DescentStays(candidates, endings, descent, s);
      }
    }
  }

  lemma HolderReaches(candidates: Candidates, endings: set<Node>, holder: Node, held: Node)
    requires Holds(candidates, holder, held) && ReachesEnding(candidates, endings, held)
    ensures ReachesEnding(candidates, endings, holder)
  {
    var descent :| IsDescent(candidates, descent) && descent[0] == held
                   && HoldsEnding(candidates, endings, descent[|descent| - 1]);
    var longer := [holder] + descent;
    forall i | 0 <= i < |longer| - 1 ensures Holds(candidates, longer[i], longer[i + 1]) {
      if i > 0 {
        assert Holds(candidates, descent[i - 1], descent[i]);
      }
    }
    assert longer[|longer| - 1] == descent[|descent| - 1];
  }

  lemma {:induction false} DescentStays(candidates: Candidates, endings: set<Node>, descent: seq<Node>, s: set<Node>)
    requires IsDescent(candidates, descent) && HoldsEnding(candidates, endings, descent[|descent| - 1])
    requires IsClosed(candidates, endings, s)
    ensures descent[0] in s
    decreases |descent|
  {
    if |descent| > 1 {
      var rest := descent[1..];
      forall i | 0 <= i < |rest| - 1 ensures Holds(candidates, rest[i], rest[i + 1]) {
        assert Holds(candidates, descent[i + 1], descent[i + 2]);
      }
      assert rest[|rest| - 1] == descent[|descent| - 1];
      DescentStays(candidates, endings, rest, s);
      assert Holds(candidates, descent[0], descent[1]);
    }
  }

  ghost predicate Meets(members: seq<Node>, s: set<Node>) {
    exists held :: held in members && held in s
  }

  /** Holding every candidate that has a member in it. */
  ghost predicate ClosedUnder(nested: map<Node, seq<Node>>, s: set<Node>) {
    forall holder :: holder in nested && Meets(nested[holder], s) ==> holder in s
  }

  /** For each candidate, the candidates its members stand for. */
  ghost predicate IsNest(candidates: Candidates, nested: map<Node, seq<Node>>) {
    && nested.Keys == candidates.Keys
    && forall call, held :: call in nested ==> (held in nested[call] <==> Holds(candidates, call, held))
  }

  /** Being closed under what the nest says is being closed under holding. */
  lemma ClosedByHolding(candidates: Candidates, nested: map<Node, seq<Node>>, s: set<Node>)
    requires IsNest(candidates, nested)
    ensures ClosedUnder(nested, s) <==>
              forall holder, held :: Holds(candidates, holder, held) && held in s ==> holder in s
  {
    if forall holder, held :: Holds(candidates, holder, held) && held in s ==> holder in s {
      forall holder | holder in nested && Meets(nested[holder], s) ensures holder in s {
        var held :| held in nested[holder] && held in s;
        assert Holds(candidates, holder, held);
      }
    }
  }

  lemma TreesClosedUnder(candidates: Candidates, endings: set<Node>, nested: map<Node, seq<Node>>)
    requires IsNest(candidates, nested)
    ensures ClosedUnder(nested, TreesOf(candidates, endings))
  {
    TreesAreLeast(candidates, endings, {});
    ClosedByHolding(candidates, nested, TreesOf(candidates, endings));
  }

  /** What is right so far and closed is all of it. */
  lemma ClosedConfirmsAll(candidates: Candidates, endings: set<Node>, nested: map<Node, seq<Node>>, found: set<Node>)
    requires IsNest(candidates, nested) && ClosedUnder(nested, found)
    requires EndingHolders(candidates, endings) <= found
    requires found <= TreesOf(candidates, endings)
    ensures found == TreesOf(candidates, endings)
  {
    ClosedByHolding(candidates, nested, found);
    assert IsClosed(candidates, endings, found);
    TreesAreLeast(candidates, endings, found);
  }

  lemma EndingsAreTrees(candidates: Candidates, endings: set<Node>)
    ensures EndingHolders(candidates, endings) <= TreesOf(candidates, endings)
  {
    TreesAreLeast(candidates, endings, {});
  }

  ghost predicate IsReferred(nested: map<Node, seq<Node>>, trees: set<Node>, holder: Node, held: Node) {
    holder in trees && held in trees && holder in nested && held in nested[holder]
  }

  /** One of these trees holds another tree. */
  ghost predicate IsReferredBy(nested: map<Node, seq<Node>>, trees: set<Node>, order: seq<Node>, held: Node) {
    exists holder :: holder in order && IsReferred(nested, trees, holder, held)
  }

  lemma ReferredMore(nested: map<Node, seq<Node>>, trees: set<Node>, order: seq<Node>, i: nat)
    requires i < |order|
    ensures forall held :: IsReferredBy(nested, trees, order[..i + 1], held)
                      <==> IsReferredBy(nested, trees, order[..i], held) || IsReferred(nested, trees, order[i], held)
  {
    assert order[..i + 1] == order[..i] + [order[i]];
  }

  /** Going through every candidate finds every tree another tree holds. */
  lemma HeldByNest(
      candidates: Candidates, endings: set<Node>, nested: map<Node, seq<Node>>, order: seq<Node>, referred: set<Node>)
    requires IsNest(candidates, nested)
    requires forall call :: call in candidates ==> call in order
    requires forall held :: held in referred <==> IsReferredBy(nested, TreesOf(candidates, endings), order, held)
    ensures referred == HeldOf(candidates, endings)
  {
    var trees := TreesOf(candidates, endings);
    forall held | held in HeldOf(candidates, endings) ensures held in referred {
      var holder :| holder in trees && held in trees && Holds(candidates, holder, held);
      assert holder in order && IsReferred(nested, trees, holder, held);
    }
    forall held | held in referred ensures held in HeldOf(candidates, endings) {
      var holder :| holder in order && IsReferred(nested, trees, holder, held);
      assert Holds(candidates, holder, held);
    }
  }

  class Forest {
    /** The values a chain ends in the way a way in does. */
    const endings: set<Node>
    var candidates: Candidates
    /** The calls in the order first added, which is the order everything below follows. */
    var order: seq<Node>
    var trees: seq<Node>
    var referenced: set<Node>

    constructor (endings: set<Node>)
      ensures Valid() && this.endings == endings && candidates == map[] && trees == [] && referenced == {}
    {
      this.endings := endings;
      candidates, order, trees, referenced := map[], [], [], {};
    }

    ghost predicate Valid()
      reads this
    {
      && KeyedByCall(candidates)
      && NoRepeats(order) && (forall call :: call in order <==> call in candidates)
    }

    /** The trees confirmed so far, as a set. */
    ghost function Confirmed(): set<Node>
      reads this`trees
    {
      set call | call in trees
    }

    method Add(tree: Tree)
      requires Valid()
      modifies this`candidates, this`order
      ensures Valid() && candidates == old(candidates)[tree.call := tree]
    {
      if tree.call !in candidates {
        order := order + [tree.call];
      }
      candidates := candidates[tree.call := tree];
    }

    /** Looks up a value among the confirmed trees. */
    function At(value: Node): (tree: Option<Tree>)
      reads this
      ensures tree.Some? <==> value in candidates && candidates[value].call in trees
      ensures tree.Some? ==> tree.value == candidates[value]
    {
      if value in candidates && candidates[value].call in trees then Some(candidates[value]) else None
    }

    /** The candidates a tree's members stand for, in the order written. */
    method MembersOf(call: Node) returns (members: seq<Node>)
      requires Valid() && call in candidates
      ensures forall held :: held in members <==> Holds(candidates, call, held)
    {
      members := [];
      var written := candidates[call].members;
      for i := 0 to |written|
        invariant forall held :: held in members <==>
                    held in candidates && exists k | 0 <= k < i :: written[k].value == held
      {
        if written[i].value in candidates {
          members := members + [written[i].value];
        }
      }
    }

    method AnyEnding(call: Node) returns (any: bool)
      requires call in candidates
      ensures any <==> HoldsEnding(candidates, endings, call)
    {
      var written := candidates[call].members;
      for i := 0 to |written|
        invariant forall k | 0 <= k < i :: written[k].value !in endings
      {
        if written[i].value in endings {
          return true;
        }
      }
      return false;
    }

    /** Computes `TreesOf` by repeated passes, then `HeldOf` by one more. */
    method Settle()
      requires Valid() && trees == [] && referenced == {}
      modifies this`trees, this`referenced
      ensures NoRepeats(trees) && Confirmed() == TreesOf(candidates, endings)
      ensures referenced == HeldOf(candidates, endings)
    {
      var nested := Nest();
      EndingsAreTrees(candidates, endings);
      TreesClosedUnder(candidates, endings, nested);
      Confirm(nested, TreesOf(candidates, endings));
      ClosedConfirmsAll(candidates, endings, nested, Confirmed());
      Refer(nested);
    }

    /** The members each candidate holds; the candidates that hold a way in become trees. */
    method Nest() returns (nested: map<Node, seq<Node>>)
      requires Valid() && trees == []
      modifies this`trees
      ensures IsNest(candidates, nested)
      ensures NoRepeats(trees) && Confirmed() == EndingHolders(candidates, endings)
    {
      nested := map[];
      for i := 0 to |order|
        invariant nested.Keys == set k | 0 <= k < i :: order[k]
        invariant forall call, held :: call in nested ==> (held in nested[call] <==> Holds(candidates, call, held))
        invariant NoRepeats(trees) && forall call ::
                  call in trees <==> call in nested && HoldsEnding(candidates, endings, call)
      {
        var members := MembersOf(order[i]);
        nested := nested[order[i] := members];
        var any := AnyEnding(order[i]);
        if any {
          trees := trees + [order[i]];
        }
      }
      assert forall call :: call in candidates ==> call in order;
      assert forall call :: call in Confirmed() <==> call in EndingHolders(candidates, endings);
    }

    /** Passes over the candidates until one adds nothing. */
    method Confirm(nested: map<Node, seq<Node>>, ghost goal: set<Node>)
      requires forall call :: call in order <==> call in nested
      requires NoRepeats(trees) && Confirmed() <= goal
      requires ClosedUnder(nested, goal)
      modifies this`trees
      ensures NoRepeats(trees) && old(Confirmed()) <= Confirmed() <= goal
      ensures ClosedUnder(nested, Confirmed())
    {
      var moved := true;
      while moved
        invariant NoRepeats(trees) && old(Confirmed()) <= Confirmed() <= goal
        invariant !moved ==> ClosedUnder(nested, Confirmed())
        decreases goal - Confirmed(), moved
      {
        ghost var left := goal - Confirmed();
        moved := ConfirmOnce(nested, goal);
        assert goal - Confirmed() <= left;
        if moved {
          ghost var call :| call in goal && call in trees && call in left;
          assert call !in goal - Confirmed();
        }
      }
    }

    /** One pass over every candidate, and whether it confirmed any. */
    method ConfirmOnce(nested: map<Node, seq<Node>>, ghost goal: set<Node>) returns (moved: bool)
      requires forall call :: call in order <==> call in nested
      requires NoRepeats(trees) && Confirmed() <= goal
      requires ClosedUnder(nested, goal)
      modifies this`trees
      ensures NoRepeats(trees) && old(Confirmed()) <= Confirmed() <= goal
      ensures moved ==> exists call :: call in goal && call in trees && call !in old(Confirmed())
      ensures !moved ==> trees == old(trees) && ClosedUnder(nested, Confirmed())
    {
      moved := false;
      for i := 0 to |order|
        invariant NoRepeats(trees) && old(Confirmed()) <= Confirmed() <= goal
        invariant moved ==> exists call :: call in goal && call in trees && call !in old(Confirmed())
        invariant !moved ==> trees == old(trees)
        invariant !moved ==> forall k | 0 <= k < i :: order[k] in trees || !Meets(nested[order[k]], Confirmed())
      {
        var tree := order[i];
        if tree in trees {
          continue;
        }
        var some := AnyIn(nested[tree]);
        if !some {
          continue;
        }
        assert Meets(nested[tree], goal);
        trees := trees + [tree];
        moved := true;
      }
      assert forall call :: call in nested ==> call in order;
    }

    /** The trees other trees hold. */
    method Refer(nested: map<Node, seq<Node>>)
      requires Valid() && IsNest(candidates, nested) && referenced == {}
      requires Confirmed() == TreesOf(candidates, endings)
      modifies this`referenced
      ensures referenced == HeldOf(candidates, endings)
    {
      for i := 0 to |order|
        invariant forall held :: held in referenced <==> IsReferredBy(nested, Confirmed(), order[..i], held)
      {
        assert order[i] in order && order[i] in nested;
        ghost var before := referenced;
        if order[i] in trees {
          ReferAll(nested[order[i]]);
        }
        assert forall held :: held in referenced <==> held in before || IsReferred(nested, Confirmed(), order[i], held);
        ReferredMore(nested, Confirmed(), order, i);
      }
      assert order[..|order|] == order;
      HeldByNest(candidates, endings, nested, order, referenced);
    }

    method ReferAll(members: seq<Node>)
      modifies this`referenced
      ensures forall held :: held in referenced <==> held in old(referenced) || (held in members && held in trees)
    {
      for m := 0 to |members|
        invariant forall held ::
                  held in referenced <==> held in old(referenced) || (held in members[..m] && held in trees)
      {
        assert members[..m + 1] == members[..m] + [members[m]];
        if members[m] in trees {
          referenced := referenced + {members[m]};
        }
      }
      assert members[..|members|] == members;
    }

    method AnyIn(members: seq<Node>) returns (any: bool)
      ensures any <==> Meets(members, Confirmed())
    {
      for i := 0 to |members|
        invariant forall k | 0 <= k < i :: members[k] !in trees
      {
        if members[i] in trees {
          assert members[i] in members && members[i] in Confirmed();
          return true;
        }
      }
      return false;
    }

    /** The trees no tree refers to, in the order confirmed. */
    function Roots(): (roots: seq<Node>)
      reads this
      ensures forall call :: call in roots <==> call in trees && call !in referenced
    {
      RootsAmong(trees, referenced)
    }
  }

  function RootsAmong(trees: seq<Node>, referenced: set<Node>): (roots: seq<Node>)
    ensures forall call :: call in roots <==> call in trees && call !in referenced
    ensures NoRepeats(trees) ==> NoRepeats(roots)
  {
    if |trees| == 0 then []
    else
      var rest := RootsAmong(trees[1..], referenced);
      if trees[0] in referenced then rest else [trees[0]] + rest
  }
}
