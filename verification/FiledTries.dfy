/** The value of a branch of the middleware tree, and the list of entries it holds. */
module FiledTries {
  import opened Seqs
  import opened MiddlewareOrder

  /** One bucket of a branch: what is filed in it, and the segments below it in the order first met. */
  datatype Slot = Slot(entries: seq<Entry>, keys: seq<string>)

  /** Where a branch's child hangs: below a bucket, under a segment. */
  type Place = (Bucket, string)

  /** The five buckets of a branch by rank, and its children. */
  datatype Trie = Trie(slots: seq<Slot>, children: map<Place, Trie>)

  const BARE := Trie([Slot([], []), Slot([], []), Slot([], []), Slot([], []), Slot([], [])], map[])

  function WithEntry(t: Trie, b: Bucket, e: Entry): Trie {
    if |t.slots| != |BUCKETS| then t
    else t.(slots := t.slots[Rank(b) := t.slots[Rank(b)].(entries := t.slots[Rank(b)].entries + [e])])
  }

  /** A branch with a child under a segment not met before. */
  function WithChild(t: Trie, at: Place, child: Trie): Trie {
    if |t.slots| != |BUCKETS| then t
    else
      var k := Rank(at.0);
      Trie(t.slots[k := t.slots[k].(keys := t.slots[k].keys + [at.1])], t.children[at := child])
  }

  /** A branch with one entry more filed in it. */
  function Filed(t: Trie, e: Entry, d: nat): Trie
    decreases |e.segments| - d
  {
    var b := BucketAt(e, d);
    if EndsBy(e, d) then WithEntry(t, b, e)
    else
      var at := (b, e.segments[d]);
      if at in t.children then t.(children := t.children[at := Filed(t.children[at], e, d + 1)])
      else WithChild(t, at, Filed(BARE, e, d + 1))
  }

  // ---- what a branch holds ----

  function SlotFor(items: seq<Entry>, d: nat, b: Bucket): Slot {
    Slot(Ends(items, d, b), Heads(items, d, b))
  }

  function SlotsFor(items: seq<Entry>, d: nat): seq<Slot> {
    [SlotFor(items, d, Global), SlotFor(items, d, Wildcard), SlotFor(items, d, Regex),
     SlotFor(items, d, Static), SlotFor(items, d, Params)]
  }

  /** A branch holds a list when each bucket has what ends in it, and each child what goes below it. */
  ghost predicate Holds(t: Trie, items: seq<Entry>, d: nat) {
    && t.slots == SlotsFor(items, d)
    && (forall at :: at in t.children <==> at.1 in Heads(items, d, at.0))
    && (forall at :: at in t.children ==> Holds(t.children[at], Below(items, d, at.0, at.1), d + 1))
  }

  lemma BareHolds(d: nat)
    ensures Holds(BARE, [], d)
  {
    forall at: Place ensures at !in BARE.children && at.1 !in Heads([], d, at.0) {}
  }

  /** Each bucket of a branch that holds a list is what the order walks. */
  lemma HoldsSlot(t: Trie, items: seq<Entry>, d: nat, b: Bucket)
    requires Holds(t, items, d)
    ensures |t.slots| == |BUCKETS| && t.slots[Rank(b)] == SlotFor(items, d, b)
    ensures forall i | 0 <= i < |t.slots[Rank(b)].keys| ::
              var at := (b, t.slots[Rank(b)].keys[i]);
              at in t.children && Holds(t.children[at], Children(items, d, b, t.slots[Rank(b)].keys)[i], d + 1)
  {
    match b case Global => case Wildcard => case Regex => case Static => case Params =>
    var keys := t.slots[Rank(b)].keys;
    forall i | 0 <= i < |keys|
      ensures var at := (b, keys[i]); at in t.children && Holds(t.children[at], Children(items, d, b, keys)[i], d + 1)
    {
      var at: Place := (b, keys[i]);
      assert at.1 in Heads(items, d, at.0);
    }
  }

  /** Filing an entry in a branch makes it hold the list with that entry at the end. */
  lemma {:induction false} FiledHolds(t: Trie, items: seq<Entry>, e: Entry, d: nat)
    requires Holds(t, items, d)
    ensures Holds(Filed(t, e, d), items + [e], d)
    decreases |e.segments| - d
  {
    SlotsFiled(items, e, d);
    if EndsBy(e, d) {
      forall at: Place ensures Below(items + [e], d, at.0, at.1)
        == Below(items, d, at.0, at.1) { BelowSnoc(items, e, d, at.0, at.1); }
      forall at: Place ensures Heads(items + [e], d, at.0) == Heads(items, d, at.0) { HeadsSnoc(items, e, d, at.0); }
    } else {
      var place: Place := (BucketAt(e, d), e.segments[d]);
      var child := if place in t.children then t.children[place] else BARE;
      assert place in t.children <==> place.1 in Heads(items, d, place.0);
      if place !in t.children {
        NothingBelow(items, d, place.0, place.1);
        BareHolds(d + 1);
      }
      FiledHolds(child, Below(items, d, place.0, place.1), e, d + 1);
      BelowPlaceHolds(t, items, e, d, place, Filed(child, e, d + 1));
    }
  }

  lemma BelowPlaceHolds(t: Trie, items: seq<Entry>, e: Entry, d: nat, place: Place, child: Trie)
    requires Holds(t, items, d) && !EndsBy(e, d) && place == (BucketAt(e, d), e.segments[d])
    requires Holds(child, Below(items, d, place.0, place.1) + [e], d + 1)
    ensures var children := t.children[place := child];
            && (forall at :: at in children <==> at.1 in Heads(items + [e], d, at.0))
            && (forall at :: at in children ==> Holds(children[at], Below(items + [e], d, at.0, at.1), d + 1))
  {
    var children := t.children[place := child];
    forall at: Place ensures at in children <==> at.1 in Heads(items + [e], d, at.0) {
      HeadsSnoc(items, e, d, at.0);
      assert at in t.children <==> at.1 in Heads(items, d, at.0);
    }
    forall at: Place | at in children ensures Holds(children[at], Below(items + [e], d, at.0, at.1), d + 1) {
      BelowSnoc(items, e, d, at.0, at.1);
      if at == place {
        assert Below(items + [e], d, at.0, at.1) == Below(items, d, at.0, at.1) + [e];
      } else {
        ConcatEmpty(Below(items, d, at.0, at.1), []);
      }
    }
  }

  /** The buckets after one entry more: one has it filed, or knows its segment. */
  lemma SlotsFiled(items: seq<Entry>, e: Entry, d: nat)
    ensures var b := BucketAt(e, d);
            var before := SlotsFor(items, d);
            var slot := before[Rank(b)];
            SlotsFor(items + [e], d) ==
              if EndsBy(e, d) then before[Rank(b) := Slot(slot.entries + [e], slot.keys)]
              else if e.segments[d] in Heads(items, d, b) then before
              else before[Rank(b) := Slot(slot.entries, slot.keys + [e.segments[d]])]
  {
    SlotFiled(items, e, d, Global);
    SlotFiled(items, e, d, Wildcard);
    SlotFiled(items, e, d, Regex);
    SlotFiled(items, e, d, Static);
    SlotFiled(items, e, d, Params);
    var b := BucketAt(e, d);
    OneSlotChanged(SlotsFor(items, d), SlotsFor(items + [e], d), b, SlotFor(items + [e], d, b));
  }

  /** Two lists of slots that agree but at one bucket. */
  lemma OneSlotChanged(before: seq<Slot>, after: seq<Slot>, b: Bucket, slot: Slot)
    requires |before| == |after| == |BUCKETS| && after[Rank(b)] == slot
    requires forall k | 0 <= k < |BUCKETS| && k != Rank(b) :: after[k] == before[k]
    ensures after == before[Rank(b) := slot]
  {
  }

  lemma SlotFiled(items: seq<Entry>, e: Entry, d: nat, b: Bucket)
    ensures SlotFor(items + [e], d, b) ==
              if BucketAt(e, d) != b then SlotFor(items, d, b)
              else if EndsBy(e, d) then Slot(Ends(items, d, b) + [e], Heads(items, d, b))
              else if e.segments[d] in Heads(items, d, b) then SlotFor(items, d, b)
              else Slot(Ends(items, d, b), Heads(items, d, b) + [e.segments[d]])
  {
    EndsSnoc(items, e, d, b);
    HeadsSnoc(items, e, d, b);
    ConcatEmpty(Ends(items, d, b), []);
    ConcatEmpty(Heads(items, d, b), []);
  }

  // ---- one entry, or one branch, more ----

  lemma {:induction false} EndsSnoc(items: seq<Entry>, e: Entry, d: nat, b: Bucket)
    ensures Ends(items + [e], d, b) == Ends(items, d, b) + (if BucketAt(e, d) == b && EndsBy(e, d) then [e] else [])
  {
    if |items| == 0 {
      assert items + [e] == [e];
      assert [e][1..] == [];
    } else {
      ConcatTail(items, [e]);
      EndsSnoc(items[1..], e, d, b);
      Associates(if BucketAt(items[0], d) == b && EndsBy(items[0], d) then [items[0]] else [],
                 Ends(items[1..], d, b), if BucketAt(e, d) == b && EndsBy(e, d) then [e] else []);
    }
  }

  lemma {:induction false} BelowSnoc(items: seq<Entry>, e: Entry, d: nat, b: Bucket, key: string)
    ensures Below(items + [e], d, b, key) == Below(items, d, b, key) + (if GoesUnder(e, d, b, key) then [e] else [])
  {
    if |items| == 0 {
      assert items + [e] == [e];
      assert [e][1..] == [];
    } else {
      ConcatTail(items, [e]);
      BelowSnoc(items[1..], e, d, b, key);
      Associates(if GoesUnder(items[0], d, b, key) then [items[0]] else [],
                 Below(items[1..], d, b, key), if GoesUnder(e, d, b, key) then [e] else []);
    }
  }

  lemma HeadsSnoc(items: seq<Entry>, e: Entry, d: nat, b: Bucket)
    ensures Heads(items + [e], d, b) == Heads(items, d, b) +
              (if BucketAt(e, d) == b && !EndsBy(e, d) && e.segments[d] !in Heads(items, d, b) then [e.segments[d]]
                else [])
  {
    assert (items + [e])[..|items|] == items;
  }

  lemma NothingBelow(items: seq<Entry>, d: nat, b: Bucket, key: string)
    requires key !in Heads(items, d, b)
    ensures Below(items, d, b, key) == []
  {
    HeadsAre(items, d, b);
    if |Below(items, d, b, key)| > 0 {
      BelowAre(items, d, b, key, Below(items, d, b, key)[0]);
    }
  }

  function BlocksOf(groups: seq<seq<Entry>>, d: nat): seq<seq<Entry>> {
    [BlockOf(groups, d, Global), BlockOf(groups, d, Wildcard), BlockOf(groups, d, Regex),
     BlockOf(groups, d, Static), BlockOf(groups, d, Params)]
  }

  /** What every bucket has once one branch more is walked. */
  function Added(before: seq<seq<Entry>>, items: seq<Entry>, d: nat): (after: seq<seq<Entry>>)
    requires |before| == |BUCKETS|
    ensures |after| == |BUCKETS| && forall k | 0 <= k < |BUCKETS| ::
            after[k] == before[k] + SlotOf(items, d, BUCKETS[k])
  {
    [before[0] + SlotOf(items, d, Global), before[1] + SlotOf(items, d, Wildcard), before[2] + SlotOf(items, d, Regex),
     before[3] + SlotOf(items, d, Static), before[4] + SlotOf(items, d, Params)]
  }

  lemma BlocksNext(groups: seq<seq<Entry>>, i: nat, d: nat)
    requires i < |groups|
    ensures BlocksOf(groups[..i + 1], d) == Added(BlocksOf(groups[..i], d), groups[i], d)
  {
    assert groups[..i + 1] == groups[..i] + [groups[i]];
    BlockSnoc(groups[..i], groups[i], d, Global);
    BlockSnoc(groups[..i], groups[i], d, Wildcard);
    BlockSnoc(groups[..i], groups[i], d, Regex);
    BlockSnoc(groups[..i], groups[i], d, Static);
    BlockSnoc(groups[..i], groups[i], d, Params);
  }

  lemma {:induction false} BlockSnoc(groups: seq<seq<Entry>>, last: seq<Entry>, d: nat, b: Bucket)
    ensures BlockOf(groups + [last], d, b) == BlockOf(groups, d, b) + SlotOf(last, d, b)
  {
    if |groups| == 0 {
      assert groups + [last] == [last];
      assert [last][1..] == [];
      ConcatEmpty(SlotOf(last, d, b), []);
    } else {
      ConcatTail(groups, [last]);
      BlockSnoc(groups[1..], last, d, b);
      Associates(SlotOf(groups[0], d, b), BlockOf(groups[1..], d, b), SlotOf(last, d, b));
    }
  }

  lemma {:induction false} ReachOne(groups: seq<seq<Entry>>, i: nat, d: nat)
    requires i < |groups|
    ensures Reach(groups[i], d) <= Reaches(groups, d)
  {
    if i > 0 {
      ReachOne(groups[1..], i - 1, d);
    }
  }
}
