/** What the framework's order keeps of a list of middleware, and what it puts first. */
module MiddlewareOrderLaws {
  import opened Seqs
  import opened MiddlewareOrder

  function Flat(groups: seq<seq<Entry>>): seq<Entry> {
    if |groups| == 0 then [] else groups[0] + Flat(groups[1..])
  }

  function Times(items: seq<Entry>, e: Entry): nat {
    multiset(items)[e]
  }

  lemma TimesConcat(a: seq<Entry>, b: seq<Entry>, e: Entry)
    ensures Times(a + b, e) == Times(a, e) + Times(b, e)
  {
  }

  lemma TimesFirst(items: seq<Entry>, e: Entry)
    requires |items| > 0
    ensures Times(items, e) == (if items[0] == e then 1 else 0) + Times(items[1..], e)
  {
    assert items == [items[0]] + items[1..];
  }

  // ---- nothing lost, nothing added ----

  lemma {:induction false} TimesEnds(items: seq<Entry>, d: nat, b: Bucket, e: Entry)
    ensures Times(Ends(items, d, b), e) == if BucketAt(e, d) == b && EndsBy(e, d) then Times(items, e) else 0
  {
    if |items| > 0 {
      TimesEnds(items[1..], d, b, e);
      TimesFirst(items, e);
    }
  }

  lemma {:induction false} TimesBelow(items: seq<Entry>, d: nat, b: Bucket, segment: string, e: Entry)
    ensures Times(Below(items, d, b, segment), e) == if GoesUnder(e, d, b, segment) then Times(items, e) else 0
  {
    if |items| > 0 {
      TimesBelow(items[1..], d, b, segment, e);
      TimesFirst(items, e);
    }
  }

  lemma {:induction false} TimesChildren(items: seq<Entry>, d: nat, b: Bucket, heads: seq<string>, e: Entry)
    requires NoRepeats(heads)
    ensures Times(Flat(Children(items, d, b, heads)), e)
         == if BucketAt(e, d) == b && !EndsBy(e, d) && e.segments[d] in heads then Times(items, e) else 0
  {
    if |heads| > 0 {
      TimesChildren(items, d, b, heads[1..], e);
      TimesBelow(items, d, b, heads[0], e);
      var groups := Children(items, d, b, heads);
      assert groups[1..] == Children(items, d, b, heads[1..]);
      TimesConcat(groups[0], Flat(groups[1..]), e);
    }
  }

  lemma {:induction false} TimesSlot(items: seq<Entry>, d: nat, b: Bucket, e: Entry)
    ensures Times(SlotOf(items, d, b), e) == if BucketAt(e, d) == b then Times(items, e) else 0
    decreases Reach(items, d), 0
  {
    TimesEnds(items, d, b, e);
    HeadsAre(items, d, b);
    var heads := Heads(items, d, b);
    assert e in items <==> Times(items, e) > 0;
    if e in items && BucketAt(e, d) == b && !EndsBy(e, d) {
      assert GoesUnder(e, d, b, e.segments[d]);
      assert e.segments[d] in heads;
    }
    if |heads| > 0 {
      ChildrenReachLess(items, d, b);
      TimesOrder(Children(items, d, b, heads), d + 1, e);
      TimesChildren(items, d, b, heads, e);
      TimesConcat(Ends(items, d, b), OrderOf(Children(items, d, b, heads), d + 1), e);
    }
  }

  lemma {:induction false} TimesBlock(groups: seq<seq<Entry>>, d: nat, b: Bucket, e: Entry)
    ensures Times(BlockOf(groups, d, b), e) == if BucketAt(e, d) == b then Times(Flat(groups), e) else 0
    decreases Reaches(groups, d), 1, |groups|
  {
    if |groups| > 0 {
      TimesSlot(groups[0], d, b, e);
      TimesBlock(groups[1..], d, b, e);
      TimesConcat(SlotOf(groups[0], d, b), BlockOf(groups[1..], d, b), e);
      TimesConcat(groups[0], Flat(groups[1..]), e);
    }
  }

  lemma {:induction false} TimesOrder(groups: seq<seq<Entry>>, d: nat, e: Entry)
    ensures Times(OrderOf(groups, d), e) == Times(Flat(groups), e)
    decreases Reaches(groups, d), 2
  {
    TimesBlock(groups, d, Global, e);
    TimesBlock(groups, d, Wildcard, e);
    TimesBlock(groups, d, Regex, e);
    TimesBlock(groups, d, Static, e);
    TimesBlock(groups, d, Params, e);
  }

  /** The order is a rearrangement of the list: every entry as often as it was written. */
  lemma {:induction false} OrderRearranges(entries: seq<Entry>)
    ensures multiset(FrameworkOrder(entries)) == multiset(entries)
  {
    forall e ensures multiset(FrameworkOrder(entries))[e] == multiset(entries)[e] {
      TimesOrder([entries], 0, e);
      assert [entries][1..] == [];
      assert Flat([entries]) == entries + [];
    }
  }

  // ---- what comes first ----

  /** Every place one entry has is before every place another has. */
  ghost predicate AllBefore(items: seq<Entry>, a: Entry, c: Entry) {
    forall i, j | 0 <= i < |items| && 0 <= j < |items| && items[i] == a && items[j] == c :: i < j
  }

  /**
   * When one entry is put before another from a depth on: a bucket that runs
   * earlier; in one bucket, what is filed there before what is below it; and
   * below one bucket, an earlier bucket of the next segment, or under the same
   * segment whatever holds one segment further.
   */
  predicate Ahead(a: Entry, c: Entry, d: nat)
    decreases |a.segments| - d
  {
    || Rank(BucketAt(a, d)) < Rank(BucketAt(c, d))
    || (&& BucketAt(a, d) == BucketAt(c, d) && !EndsBy(c, d)
        && (|| EndsBy(a, d)
            || Rank(BucketAt(a, d + 1)) < Rank(BucketAt(c, d + 1))
            || (a.segments[d] == c.segments[d] && Ahead(a, c, d + 1))))
  }

  lemma BeforeConcat(x: seq<Entry>, y: seq<Entry>, a: Entry, c: Entry)
    requires AllBefore(x, a, c) && AllBefore(y, a, c)
    requires !(c in x && a in y)
    ensures AllBefore(x + y, a, c)
  {
    var items := x + y;
    forall i, j | 0 <= i < |items| && 0 <= j < |items| && items[i] == a && items[j] == c ensures i < j {
      if |x| <= i {
        assert a in y;
        assert |x| <= j;
        assert items[i] == y[i - |x|] && items[j] == y[j - |x|];
      }
    }
  }

  lemma {:induction false} InBlock(groups: seq<seq<Entry>>, d: nat, b: Bucket, e: Entry)
    ensures e in BlockOf(groups, d, b) <==> BucketAt(e, d) == b && e in Flat(groups)
  {
    TimesBlock(groups, d, b, e);
    assert e in BlockOf(groups, d, b) <==> Times(BlockOf(groups, d, b), e) > 0;
    assert e in Flat(groups) <==> Times(Flat(groups), e) > 0;
  }

  /** Blocks whose entries keep two entries in order, put one after another, keep them. */
  lemma {:induction false} BeforeInOrder(groups: seq<seq<Entry>>, d: nat, a: Entry, c: Entry)
    requires Rank(BucketAt(a, d)) <= Rank(BucketAt(c, d))
    requires forall b :: AllBefore(BlockOf(groups, d, b), a, c)
    ensures AllBefore(OrderOf(groups, d), a, c)
  {
    forall b ensures a in BlockOf(groups, d, b) ==> BucketAt(a, d) == b { InBlock(groups, d, b, a); }
    forall b ensures c in BlockOf(groups, d, b) ==> BucketAt(c, d) == b { InBlock(groups, d, b, c); }
    var one := BlockOf(groups, d, Global);
    var two := one + BlockOf(groups, d, Wildcard);
    var three := two + BlockOf(groups, d, Regex);
    var four := three + BlockOf(groups, d, Static);
    BeforeConcat(one, BlockOf(groups, d, Wildcard), a, c);
    BeforeConcat(two, BlockOf(groups, d, Regex), a, c);
    BeforeConcat(three, BlockOf(groups, d, Static), a, c);
    BeforeConcat(four, BlockOf(groups, d, Params), a, c);
  }

  /** An earlier bucket is before a later one, whatever branches the two are in. */
  lemma {:induction false} EarlierBucketFirst(groups: seq<seq<Entry>>, d: nat, a: Entry, c: Entry)
    requires Rank(BucketAt(a, d)) < Rank(BucketAt(c, d))
    ensures AllBefore(OrderOf(groups, d), a, c)
  {
    forall b ensures AllBefore(BlockOf(groups, d, b), a, c) {
      InBlock(groups, d, b, a);
      InBlock(groups, d, b, c);
    }
    BeforeInOrder(groups, d, a, c);
  }

  /** Only one of several branches holds either of two entries. */
  ghost predicate OnlyIn(groups: seq<seq<Entry>>, at: nat, a: Entry, c: Entry) {
    at < |groups| && forall i | 0 <= i < |groups| :: (a in groups[i] || c in groups[i]) ==> i == at
  }

  lemma {:induction false} AheadInOrder(groups: seq<seq<Entry>>, d: nat, at: nat, a: Entry, c: Entry)
    requires OnlyIn(groups, at, a, c) && Ahead(a, c, d)
    ensures AllBefore(OrderOf(groups, d), a, c)
    decreases Reaches(groups, d), 2
  {
    forall b ensures AllBefore(BlockOf(groups, d, b), a, c) {
      AheadInBlock(groups, d, b, at, a, c);
    }
    BeforeInOrder(groups, d, a, c);
  }

  lemma {:induction false} NotInBlock(groups: seq<seq<Entry>>, d: nat, b: Bucket, e: Entry)
    requires forall i | 0 <= i < |groups| :: e !in groups[i]
    ensures e !in BlockOf(groups, d, b)
  {
    NotInFlat(groups, e);
    InBlock(groups, d, b, e);
  }

  lemma {:induction false} NotInFlat(groups: seq<seq<Entry>>, e: Entry)
    requires forall i | 0 <= i < |groups| :: e !in groups[i]
    ensures e !in Flat(groups)
  {
    if |groups| > 0 {
      NotInFlat(groups[1..], e);
    }
  }

  lemma {:induction false} AheadInBlock(groups: seq<seq<Entry>>, d: nat, b: Bucket, at: nat, a: Entry, c: Entry)
    requires OnlyIn(groups, at, a, c) && Ahead(a, c, d)
    ensures AllBefore(BlockOf(groups, d, b), a, c)
    decreases Reaches(groups, d), 1, |groups|
  {
    if at == 0 {
      AheadInSlot(groups[0], d, b, a, c);
      NotInBlock(groups[1..], d, b, a);
      NotInBlock(groups[1..], d, b, c);
    } else {
      AheadInBlock(groups[1..], d, b, at - 1, a, c);
      TimesSlot(groups[0], d, b, a);
      TimesSlot(groups[0], d, b, c);
      assert a !in SlotOf(groups[0], d, b) && c !in SlotOf(groups[0], d, b);
    }
    BeforeConcat(SlotOf(groups[0], d, b), BlockOf(groups[1..], d, b), a, c);
  }

  lemma {:induction false} AheadInSlot(items: seq<Entry>, d: nat, b: Bucket, a: Entry, c: Entry)
    requires Ahead(a, c, d)
    ensures AllBefore(SlotOf(items, d, b), a, c)
    decreases Reach(items, d), 0
  {
    EndsAre(items, d, b, a);
    EndsAre(items, d, b, c);
    if |Heads(items, d, b)| > 0 {
      ChildrenReachLess(items, d, b);
      InBelow(items, d, b, a);
      AheadBelow(items, d, b, a, c);
      BeforeConcat(Ends(items, d, b), OrderOf(Children(items, d, b, Heads(items, d, b)), d + 1), a, c);
    }
  }

  lemma {:induction false} InBelow(items: seq<Entry>, d: nat, b: Bucket, e: Entry)
    ensures e in OrderOf(Children(items, d, b, Heads(items, d, b)), d + 1) ==>
              e in items && BucketAt(e, d) == b && !EndsBy(e, d) && e.segments[d] in Heads(items, d, b)
  {
    HeadsAre(items, d, b);
    var groups := Children(items, d, b, Heads(items, d, b));
    TimesOrder(groups, d + 1, e);
    TimesChildren(items, d, b, Heads(items, d, b), e);
    assert e in OrderOf(groups, d + 1) <==> Times(OrderOf(groups, d + 1), e) > 0;
    assert e in items <==> Times(items, e) > 0;
  }

  lemma {:induction false} AheadBelow(items: seq<Entry>, d: nat, b: Bucket, a: Entry, c: Entry)
    requires Ahead(a, c, d) && Reaches(Children(items, d, b, Heads(items, d, b)), d + 1) < Reach(items, d)
    ensures AllBefore(OrderOf(Children(items, d, b, Heads(items, d, b)), d + 1), a, c)
    decreases Reaches(Children(items, d, b, Heads(items, d, b)), d + 1), 3
  {
    var heads := Heads(items, d, b);
    var groups := Children(items, d, b, heads);
    InBelow(items, d, b, a);
    InBelow(items, d, b, c);
    if a in OrderOf(groups, d + 1) && c in OrderOf(groups, d + 1) {
      if Rank(BucketAt(a, d + 1)) < Rank(BucketAt(c, d + 1)) {
        EarlierBucketFirst(groups, d + 1, a, c);
      } else {
        var at :| 0 <= at < |heads| && heads[at] == a.segments[d];
        OnlyUnder(items, d, b, at, a, c);
        AheadInOrder(groups, d + 1, at, a, c);
      }
    }
  }

  /** Below a bucket, what goes under one segment is in one branch. */
  lemma {:induction false} OnlyUnder(items: seq<Entry>, d: nat, b: Bucket, at: nat, a: Entry, c: Entry)
    requires at < |Heads(items, d, b)| && !EndsBy(a, d) && !EndsBy(c, d)
    requires a.segments[d] == c.segments[d] == Heads(items, d, b)[at]
    ensures OnlyIn(Children(items, d, b, Heads(items, d, b)), at, a, c)
  {
    HeadsAre(items, d, b);
    var heads := Heads(items, d, b);
    forall i | 0 <= i < |heads| && (a in Below(items, d, b, heads[i]) || c in Below(items, d, b, heads[i]))
      ensures i == at {
      BelowAre(items, d, b, heads[i], a);
      BelowAre(items, d, b, heads[i], c);
    }
  }

  /** Whatever is ahead from the first segment on runs before, wherever in the list it is written. */
  lemma {:induction false} AheadRunsBefore(entries: seq<Entry>, a: Entry, c: Entry)
    requires Ahead(a, c, 0)
    ensures AllBefore(FrameworkOrder(entries), a, c)
  {
    AheadInOrder([entries], 0, 0, a, c);
  }

  /** Along the order the bucket of the first segment never goes back. */
  lemma {:induction false} FirstBucketNeverGoesBack(entries: seq<Entry>, i: nat, j: nat)
    requires i < j < |FrameworkOrder(entries)|
    ensures Rank(BucketAt(FrameworkOrder(entries)[i], 0)) <= Rank(BucketAt(FrameworkOrder(entries)[j], 0))
  {
    var ordered := FrameworkOrder(entries);
    if Rank(BucketAt(ordered[j], 0)) < Rank(BucketAt(ordered[i], 0)) {
      AheadRunsBefore(entries, ordered[j], ordered[i]);
    }
  }

  /** A pattern runs before every longer one that extends it, if both name verbs or neither does. */
  lemma {:induction false} PatternBeforeItsExtensions(entries: seq<Entry>, a: Entry, c: Entry)
    requires 0 < |a.segments| && a.segments < c.segments && a.namesVerbs == c.namesVerbs
    ensures AllBefore(FrameworkOrder(entries), a, c)
  {
    ExtendedIsAhead(a, c, 0);
    AheadRunsBefore(entries, a, c);
  }

  lemma {:induction false} ExtendedIsAhead(a: Entry, c: Entry, d: nat)
    requires d < |a.segments| && a.segments < c.segments && a.namesVerbs == c.namesVerbs
    ensures Ahead(a, c, d)
    decreases |a.segments| - d
  {
    assert a.segments[d] == c.segments[d];
    if !EndsBy(a, d) {
      ExtendedIsAhead(a, c, d + 1);
    }
  }

  // ---- what keeps its place ----

  /** The entries of a list with one pattern, naming verbs or not. */
  function Alike(items: seq<Entry>, segments: seq<string>, namesVerbs: bool): seq<Entry> {
    if |items| == 0 then []
    else (if items[0].segments == segments && items[0].namesVerbs == namesVerbs then [items[0]] else [])
         + Alike(items[1..], segments, namesVerbs)
  }

  lemma {:induction false} AlikeConcat(a: seq<Entry>, b: seq<Entry>, segments: seq<string>, namesVerbs: bool)
    ensures Alike(a + b, segments, namesVerbs) == Alike(a, segments, namesVerbs) + Alike(b, segments, namesVerbs)
  {
    if |a| == 0 {
      ConcatEmpty(a, b);
    } else {
      ConcatTail(a, b);
      AlikeConcat(a[1..], b, segments, namesVerbs);
      Associates(if a[0].segments == segments && a[0].namesVerbs == namesVerbs then [a[0]] else [],
                 Alike(a[1..], segments, namesVerbs), Alike(b, segments, namesVerbs));
    }
  }

  /** An entry of a pattern, for what is decided by the pattern alone. */
  function Sample(segments: seq<string>, namesVerbs: bool): Entry {
    Entry(segments, namesVerbs, 0)
  }

  /** Of one entry, itself where it is of the pattern. */
  lemma AlikeOne(item: Entry, segments: seq<string>, namesVerbs: bool)
    ensures Alike([item], segments, namesVerbs)
         == if item.segments == segments && item.namesVerbs == namesVerbs then [item] else []
  {
    assert |[item][1..]| == 0;
    ConcatEmpty(if item.segments == segments && item.namesVerbs == namesVerbs then [item] else [], []);
  }

  lemma {:induction false} AlikeEnds(items: seq<Entry>, d: nat, b: Bucket, segments: seq<string>, namesVerbs: bool)
    ensures Alike(Ends(items, d, b), segments, namesVerbs)
         == if BucketAt(Sample(segments, namesVerbs), d) == b && |segments| <= d + 1
           then Alike(items, segments, namesVerbs) else []
  {
    if |items| > 0 {
      AlikeEnds(items[1..], d, b, segments, namesVerbs);
      var first := if BucketAt(items[0], d) == b && EndsBy(items[0], d) then [items[0]] else [];
      AlikeConcat(first, Ends(items[1..], d, b), segments, namesVerbs);
      AlikeOne(items[0], segments, namesVerbs);
    }
  }

  lemma {:induction false} AlikeBelow(
      items: seq<Entry>, d: nat, b: Bucket, segment: string, segments: seq<string>, namesVerbs: bool)
    ensures Alike(Below(items, d, b, segment), segments, namesVerbs)
         == if GoesUnder(Sample(segments, namesVerbs), d, b, segment) then Alike(items, segments, namesVerbs) else []
  {
    if |items| > 0 {
      AlikeBelow(items[1..], d, b, segment, segments, namesVerbs);
      var first := if GoesUnder(items[0], d, b, segment) then [items[0]] else [];
      AlikeConcat(first, Below(items[1..], d, b, segment), segments, namesVerbs);
    }
  }

  lemma {:induction false} AlikeChildren(
      items: seq<Entry>, d: nat, b: Bucket, heads: seq<string>, segments: seq<string>, namesVerbs: bool)
    requires NoRepeats(heads)
    ensures Alike(Flat(Children(items, d, b, heads)), segments, namesVerbs)
         == if BucketAt(Sample(segments, namesVerbs), d) == b && |segments| > d + 1 && segments[d] in heads
            then Alike(items, segments, namesVerbs) else []
  {
    if |heads| > 0 {
      AlikeChildren(items, d, b, heads[1..], segments, namesVerbs);
      AlikeBelow(items, d, b, heads[0], segments, namesVerbs);
      var groups := Children(items, d, b, heads);
      assert groups[1..] == Children(items, d, b, heads[1..]);
      AlikeConcat(groups[0], Flat(groups[1..]), segments, namesVerbs);
    }
  }

  lemma OneOfFive(b: Bucket, items: seq<Entry>)
    ensures (if b == Global then items else []) + (if b == Wildcard then items else [])
            + (if b == Regex then items else []) + (if b == Static then items else [])
            + (if b == Params then items else []) == items
  {
  }

  lemma AlikeFive(a: seq<Entry>, b: seq<Entry>, c: seq<Entry>, d: seq<Entry>, e: seq<Entry>,
                  segments: seq<string>, namesVerbs: bool)
    ensures Alike(a + b + c + d + e, segments, namesVerbs)
         == Alike(a, segments, namesVerbs) + Alike(b, segments, namesVerbs) + Alike(c, segments, namesVerbs)
            + Alike(d, segments, namesVerbs) + Alike(e, segments, namesVerbs)
  {
    AlikeConcat(a, b, segments, namesVerbs);
    AlikeConcat(a + b, c, segments, namesVerbs);
    AlikeConcat(a + b + c, d, segments, namesVerbs);
    AlikeConcat(a + b + c + d, e, segments, namesVerbs);
  }

  lemma {:induction false} AlikeSlot(items: seq<Entry>, d: nat, b: Bucket, segments: seq<string>, namesVerbs: bool)
    ensures Alike(SlotOf(items, d, b), segments, namesVerbs)
         == if BucketAt(Sample(segments, namesVerbs), d) == b then Alike(items, segments, namesVerbs) else []
    decreases Reach(items, d), 0
  {
    var heads := Heads(items, d, b);
    if |heads| > 0 {
      var groups := Children(items, d, b, heads);
      ChildrenReachLess(items, d, b);
      AlikeOrder(groups, d + 1, segments, namesVerbs);
      AlikeConcat(Ends(items, d, b), OrderOf(groups, d + 1), segments, namesVerbs);
    }
    AlikeParts(items, d, b, segments, namesVerbs);
    ConcatEmpty(Alike(Ends(items, d, b), segments, namesVerbs), []);
  }

  /** What ends in a bucket and what goes on below it are all that is alike there. */
  lemma AlikeParts(items: seq<Entry>, d: nat, b: Bucket, segments: seq<string>, namesVerbs: bool)
    ensures Alike(Ends(items, d, b), segments, namesVerbs)
            + Alike(Flat(Children(items, d, b, Heads(items, d, b))), segments, namesVerbs)
         == if BucketAt(Sample(segments, namesVerbs), d) == b then Alike(items, segments, namesVerbs) else []
  {
    var e, heads := Sample(segments, namesVerbs), Heads(items, d, b);
    AlikeEnds(items, d, b, segments, namesVerbs);
    HeadsAre(items, d, b);
    AlikeChildren(items, d, b, heads, segments, namesVerbs);
    if BucketAt(e, d) == b && !EndsBy(e, d) && e.segments[d] !in heads {
      forall x | x in items ensures !(x.segments == segments && x.namesVerbs == namesVerbs) {
        assert !GoesUnder(x, d, b, segments[d]);
      }
      NoneAlike(items, segments, namesVerbs);
    }
  }

  lemma {:induction false} NoneAlike(items: seq<Entry>, segments: seq<string>, namesVerbs: bool)
    requires forall x :: x in items ==> !(x.segments == segments && x.namesVerbs == namesVerbs)
    ensures Alike(items, segments, namesVerbs) == []
  {
    if |items| > 0 {
      assert items[0] in items;
      NoneAlike(items[1..], segments, namesVerbs);
    }
  }

  lemma {:induction false} AlikeBlock(
      groups: seq<seq<Entry>>, d: nat, b: Bucket, segments: seq<string>, namesVerbs: bool)
    ensures Alike(BlockOf(groups, d, b), segments, namesVerbs)
         == if BucketAt(Sample(segments, namesVerbs), d) == b then Alike(Flat(groups), segments, namesVerbs) else []
    decreases Reaches(groups, d), 1, |groups|
  {
    if |groups| > 0 {
      AlikeSlot(groups[0], d, b, segments, namesVerbs);
      AlikeBlock(groups[1..], d, b, segments, namesVerbs);
      AlikeConcat(SlotOf(groups[0], d, b), BlockOf(groups[1..], d, b), segments, namesVerbs);
      AlikeConcat(groups[0], Flat(groups[1..]), segments, namesVerbs);
    }
  }

  lemma {:induction false} AlikeOrder(groups: seq<seq<Entry>>, d: nat, segments: seq<string>, namesVerbs: bool)
    ensures Alike(OrderOf(groups, d), segments, namesVerbs) == Alike(Flat(groups), segments, namesVerbs)
    decreases Reaches(groups, d), 2
  {
    AlikeBlock(groups, d, Global, segments, namesVerbs);
    AlikeBlock(groups, d, Wildcard, segments, namesVerbs);
    AlikeBlock(groups, d, Regex, segments, namesVerbs);
    AlikeBlock(groups, d, Static, segments, namesVerbs);
    AlikeBlock(groups, d, Params, segments, namesVerbs);
    AlikeFive(
      BlockOf(groups, d, Global), BlockOf(groups, d, Wildcard), BlockOf(groups, d, Regex),
      BlockOf(groups, d, Static), BlockOf(groups, d, Params), segments, namesVerbs);
    OneOfFive(BucketAt(Sample(segments, namesVerbs), d), Alike(Flat(groups), segments, namesVerbs));
  }

  /** Entries of one pattern, all naming verbs or none, run in the order they are written. */
  lemma {:induction false} SamePatternKeepsOrder(entries: seq<Entry>, segments: seq<string>, namesVerbs: bool)
    ensures Alike(FrameworkOrder(entries), segments, namesVerbs) == Alike(entries, segments, namesVerbs)
  {
    AlikeOrder([entries], 0, segments, namesVerbs);
    assert [entries][1..] == [];
    assert Flat([entries]) == entries + [];
    ConcatEmpty(entries, []);
  }
}
