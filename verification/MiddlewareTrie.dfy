/**
 * The tree the framework files its middleware patterns into and walks back out
 * (`inFrameworkOrder` in `medusa-routes.ts`): branches that are changed in place
 * as each pattern is filed, proved to give back the order of `MiddlewareOrder`.
 */
module MiddlewareTrie {
  import opened Seqs
  import opened MiddlewareOrder
  import opened FiledTries

  class Branch {
    /** Where this branch hangs: the places gone through from the root, which no other branch shares. */
    ghost const path: seq<Place>
    /** This branch and everything below it. */
    ghost var Repr: set<Branch>
    var slots: seq<Slot>
    var children: map<Place, Branch>

    constructor (ghost path: seq<Place>)
      ensures Shows(BARE) && fresh(Repr) && this.path == path
    {
      slots := BARE.slots;
      children := map[];
      this.path := path;
      Repr := {this};
    }

    /** What this branch and everything below it hold, as a value. */
    ghost predicate Shows(t: Trie)
      reads this, Repr
      ensures Shows(t) ==> this in Repr
      decreases Repr
    {
      && this in Repr
      && slots == t.slots && |slots| == |BUCKETS|
      && children.Keys == t.children.Keys
      && (forall b | b in Repr :: path <= b.path)
      && (forall at | at in children ::
            && children[at] in Repr && children[at].Repr <= Repr && this !in children[at].Repr
            && children[at].path == path + [at] && children[at].Shows(t.children[at]))
    }

    /** Files one entry: into a bucket here when its pattern ends here, else below its segment. */
    method File(e: Entry, index: nat, ghost t: Trie)
      requires Shows(t)
      modifies Repr
      ensures Shows(Filed(t, e, index)) && fresh(Repr - old(Repr))
      decreases |e.segments| - index, 1
    {
      var b := BucketAt(e, index);
      if EndsBy(e, index) {
        FileHere(e, b, t);
        return;
      }
      var at := (b, e.segments[index]);
      if at in children {
        FileBelow(e, index, at, t);
      } else {
        FileNew(e, index, at, t);
      }
    }

    /** Files an entry in a child of its own. */
    method FileNew(e: Entry, index: nat, at: Place, ghost t: Trie)
      requires Shows(t) && at !in children && index < |e.segments|
      modifies Repr
      ensures Shows(WithChild(t, at, Filed(BARE, e, index + 1))) && fresh(Repr - old(Repr))
      decreases |e.segments| - index, 0
    {
      var child := new Branch(path + [at]);
      child.File(e, index + 1, BARE);
      Hang(at, child, t, Filed(BARE, e, index + 1));
    }

    /** Files an entry in a bucket of this branch. */
    method FileHere(e: Entry, b: Bucket, ghost t: Trie)
      requires Shows(t)
      modifies this`slots
      ensures Shows(WithEntry(t, b, e))
    {
      var slot := slots[Rank(b)];
      PutSlot(b, slot.(entries := slot.entries + [e]), t);
    }

    method PutSlot(b: Bucket, slot: Slot, ghost t: Trie)
      requires Shows(t)
      modifies this`slots
      ensures Shows(t.(slots := t.slots[Rank(b) := slot]))
    {
      slots := slots[Rank(b) := slot];
    }

    /** Files an entry in the child its pattern goes on below. */
    method FileBelow(e: Entry, index: nat, at: Place, ghost t: Trie)
      requires Shows(t) && at in children && index < |e.segments|
      modifies Repr
      ensures Shows(t.(children := t.children[at := Filed(t.children[at], e, index + 1)]))
      ensures fresh(Repr - old(Repr))
      decreases |e.segments| - index, 0
    {
      var child := children[at];
      OthersApart(at, t);
      child.File(e, index + 1, t.children[at]);
      Keep(at, child, t, Filed(t.children[at], e, index + 1));
    }

    /** What hangs at one place is apart from what hangs at another. */
    lemma OthersApart(at: Place, t: Trie)
      requires Shows(t) && at in children
      ensures forall other | other in children && other != at :: children[other].Repr !! children[at].Repr
    {
      HangsAt(at, t);
      forall other | other in children && other != at ensures children[other].Repr !! children[at].Repr {
        HangsAt(other, t);
      }
    }

    /** All that is reached by a child hangs at the child's place. */
    lemma HangsAt(at: Place, t: Trie)
      requires Shows(t) && at in children
      ensures forall b | b in children[at].Repr :: |b.path| > |path| && b.path[|path|] == at
    {
      assert children[at].Shows(t.children[at]);
      forall b | b in children[at].Repr ensures |b.path| > |path| && b.path[|path|] == at {
        assert path + [at] <= b.path;
      }
    }

    /** Holds a tree but for one child, which hangs in its place and has been changed. */
    ghost predicate ShowsBut(t: Trie, at: Place, child: Branch)
      reads this, Repr, child, child.Repr
    {
      && this in Repr
      && slots == t.slots && |slots| == |BUCKETS|
      && children.Keys == t.children.Keys
      && (forall b | b in Repr :: path <= b.path)
      && at in children && children[at] == child && this !in child.Repr && child.path == path + [at]
      && (forall other | other in children && other != at ::
            && children[other] in Repr && children[other].Repr <= Repr && this !in children[other].Repr
            && children[other].path == path + [other] && children[other].Shows(t.children[other]))
    }

    /** Takes note of what a child has come to reach. */
    ghost method Keep(at: Place, child: Branch, t: Trie, below: Trie)
      requires ShowsBut(t, at, child) && child.Shows(below)
      modifies this`Repr
      ensures Shows(t.(children := t.children[at := below])) && Repr == old(Repr) + child.Repr
    {
      Repr := Repr + child.Repr;
      forall b | b in Repr ensures path <= b.path {
        assert b in child.Repr ==> child.path <= b.path;
      }
    }

    /** Hangs a new child under a segment not met before. */
    method Hang(at: Place, child: Branch, ghost t: Trie, ghost below: Trie)
      requires Shows(t) && at !in children
      requires child.Shows(below) && child.Repr !! Repr && child.path == path + [at]
      modifies this
      ensures Shows(WithChild(t, at, below)) && Repr == old(Repr) + child.Repr
    {
      var slot := slots[Rank(at.0)].(keys := slots[Rank(at.0)].keys + [at.1]);
      Attach(at, child, t, below);
      PutSlot(at.0, slot, t.(children := t.children[at := below]));
    }

    method Attach(at: Place, child: Branch, ghost t: Trie, ghost below: Trie)
      requires Shows(t) && at !in children
      requires child.Shows(below) && child.Repr !! Repr && child.path == path + [at]
      modifies this`children, this`Repr
      ensures Shows(t.(children := t.children[at := below])) && Repr == old(Repr) + child.Repr
    {
      children := children[at := child];
      Repr := Repr + child.Repr;
      forall b | b in Repr ensures path <= b.path {
        assert b in child.Repr ==> child.path <= b.path;
      }
    }

    /** One bucket of this branch, walked: its own entries, and its children together. */
    method WalkSlot(b: Bucket, ghost t: Trie, ghost items: seq<Entry>, ghost d: nat) returns (out: seq<Entry>)
      requires Shows(t) && Holds(t, items, d)
      ensures out == SlotOf(items, d, b)
      decreases Reach(items, d), 0
    {
      HoldsSlot(t, items, d, b);
      var slot := slots[Rank(b)];
      if |slot.keys| == 0 {
        return slot.entries;
      }
      ChildrenReachLess(items, d, b);
      var below, held := ChildrenAt(b, slot.keys, t);
      var rest := Walk(below, held, Children(items, d, b, slot.keys), d + 1);
      out := slot.entries + rest;
    }

    method ChildrenAt(b: Bucket, keys: seq<string>, ghost t: Trie) returns (below: seq<Branch>, ghost held: seq<Trie>)
      requires Shows(t) && forall i | 0 <= i < |keys| :: (b, keys[i]) in children
      ensures |below| == |held| == |keys|
      ensures forall i | 0 <= i < |keys| :: held[i] == t.children[(b, keys[i])] && below[i].Shows(held[i])
    {
      below, held := [], [];
      for i := 0 to |keys|
        invariant |below| == |held| == i
        invariant forall k | 0 <= k < i :: below[k] == children[(b, keys[k])] && held[k] == t.children[(b, keys[k])]
      {
        below := below + [children[(b, keys[i])]];
        held := held + [t.children[(b, keys[i])]];
      }
    }
  }

  /** Several branches walked together, bucket after bucket. */
  method Walk(branches: seq<Branch>, ghost held: seq<Trie>, ghost groups: seq<seq<Entry>>, ghost d: nat)
    returns (out: seq<Entry>)
    requires |groups| == |held| == |branches|
    requires forall i | 0 <= i < |branches| :: branches[i].Shows(held[i]) && Holds(held[i], groups[i], d)
    ensures out == OrderOf(groups, d)
    decreases Reaches(groups, d), 2
  {
    var byBucket: seq<seq<Entry>> := [[], [], [], [], []];
    for i := 0 to |branches|
      invariant byBucket == BlocksOf(groups[..i], d)
    {
      ReachOne(groups, i, d);
      byBucket := WalkInto(byBucket, branches[i], held[i], groups[i], d);
      BlocksNext(groups, i, d);
    }
    assert groups[..|branches|] == groups;
    out := byBucket[0] + byBucket[1] + byBucket[2] + byBucket[3] + byBucket[4];
  }

  /** Every bucket of one branch, put after what each bucket already has. */
  method WalkInto(before: seq<seq<Entry>>, branch: Branch, ghost t: Trie, ghost items: seq<Entry>, ghost d: nat)
    returns (after: seq<seq<Entry>>)
    requires branch.Shows(t) && Holds(t, items, d) && |before| == |BUCKETS|
    ensures after == Added(before, items, d)
    decreases Reach(items, d), 1
  {
    after := [];
    for k := 0 to |BUCKETS|
      invariant |after| == k
      invariant forall j | 0 <= j < k :: after[j] == before[j] + SlotOf(items, d, BUCKETS[j])
    {
      var here := branch.WalkSlot(BUCKETS[k], t, items, d);
      after := after + [before[k] + here];
    }
  }

  /** Builds the tree and walks it out; what comes out is the specified order. */
  method InFrameworkOrder(entries: seq<Entry>) returns (ordered: seq<Entry>)
    ensures ordered == FrameworkOrder(entries)
  {
    var root, held := Built(entries);
    ordered := Walk([root], [held], [entries], 0);
  }

  /** Every entry filed, in the order written. */
  method Built(entries: seq<Entry>) returns (root: Branch, ghost held: Trie)
    ensures root.Shows(held) && fresh(root.Repr) && Holds(held, entries, 0)
  {
    root := new Branch([]);
    held := BARE;
    BareHolds(0);
    for i := 0 to |entries|
      invariant root.Shows(held) && fresh(root.Repr) && Holds(held, entries[..i], 0)
    {
      TakeMore(entries, i);
      FiledHolds(held, entries[..i], entries[i], 0);
      root.File(entries[i], 0, held);
      held := Filed(held, entries[i], 0);
    }
    assert entries[..|entries|] == entries;
  }
}
