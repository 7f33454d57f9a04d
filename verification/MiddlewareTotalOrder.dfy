/** The whole order middleware runs in: of any two entries of a list, which runs first. */
module MiddlewareTotalOrder {
  import opened Seqs
  import opened MiddlewareOrder
  import opened MiddlewareOrderLaws

  /** Below a bucket, a segment is met in the list before another is. */
  ghost predicate MetFirst(items: seq<Entry>, d: nat, b: Bucket, s: string, t: string) {
    exists p | 0 <= p < |items| :: MetBy(items, d, b, s, p) && !MetUpTo(items, d, b, t, p)
  }

  predicate MetBy(items: seq<Entry>, d: nat, b: Bucket, s: string, p: nat)
    requires p < |items|
  {
    GoesUnder(items[p], d, b, s)
  }

  ghost predicate MetUpTo(items: seq<Entry>, d: nat, b: Bucket, s: string, p: nat)
    requires p < |items|
  {
    exists q | 0 <= q <= p :: MetBy(items, d, b, s, q)
  }

  /**
   * Which of two entries of one branch runs first: by the bucket of their
   * segments here; in one bucket, what is filed there before what is below it,
   * and what is filed there as it is written; and of what is below it, by what is
   * below the same segment, or else by the bucket of the next segment and then by
   * which of the two segments was written first.
   */
  ghost predicate Leads(items: seq<Entry>, a: Entry, c: Entry, d: nat)
    decreases |a.segments| - d
  {
    || Rank(BucketAt(a, d)) < Rank(BucketAt(c, d))
    || (BucketAt(a, d) == BucketAt(c, d) &&
        if EndsBy(a, d) then !EndsBy(c, d) || AllBefore(items, a, c)
        else !EndsBy(c, d) && LeadsBelow(items, a, c, d))
  }

  ghost predicate LeadsBelow(items: seq<Entry>, a: Entry, c: Entry, d: nat)
    requires !EndsBy(a, d) && !EndsBy(c, d)
    decreases |a.segments| - d, 0
  {
    if a.segments[d] == c.segments[d] then Leads(Below(items, d, BucketAt(a, d), a.segments[d]), a, c, d + 1)
    else
      || Rank(BucketAt(a, d + 1)) < Rank(BucketAt(c, d + 1))
      || (BucketAt(a, d + 1) == BucketAt(c, d + 1) && MetFirst(items, d, BucketAt(a, d), a.segments[d], c.segments[d]))
  }

  // ---- written order ----

  /** What a bucket files keeps the order written. */
  lemma {:induction false} EndsInOrder(items: seq<Entry>, d: nat, b: Bucket, a: Entry, c: Entry)
    requires AllBefore(items, a, c)
    ensures AllBefore(Ends(items, d, b), a, c)
  {
    if |items| > 0 {
      var rest := items[1..];
      assert AllBefore(rest, a, c) by {
        forall i, j | 0 <= i < |rest| && 0 <= j < |rest| && rest[i] == a && rest[j] == c ensures i < j {
          assert items[i + 1] == a && items[j + 1] == c;
        }
      }
      EndsInOrder(rest, d, b, a, c);
      EndsAre(rest, d, b, a);
      NothingBeforeFirst(items, a, c);
      var first := if BucketAt(items[0], d) == b && EndsBy(items[0], d) then [items[0]] else [];
      BeforeConcat(first, Ends(rest, d, b), a, c);
    }
  }

  lemma NothingBeforeFirst(items: seq<Entry>, a: Entry, c: Entry)
    requires |items| > 0 && AllBefore(items, a, c)
    ensures items[0] == c ==> items[0] != a && a !in items[1..]
  {
    if items[0] == c {
      forall k | 0 <= k < |items| ensures items[k] != a {
      }
      forall k | 0 <= k < |items[1..]| ensures items[1..][k] != a {
        assert items[1..][k] == items[k + 1];
      }
    }
  }

  lemma OnePlace<T(!new)>(items: seq<T>, i: nat, j: nat)
    requires NoRepeats(items) && i < |items| && j < |items| && items[i] == items[j]
    ensures i == j
  {
  }

  /** Of two segments below a bucket the one met first heads the earlier branch. */
  lemma {:induction false} HeadsAsMet(items: seq<Entry>, d: nat, b: Bucket, i: nat, j: nat)
    requires i < |Heads(items, d, b)| && j < |Heads(items, d, b)|
    requires MetFirst(items, d, b, Heads(items, d, b)[i], Heads(items, d, b)[j])
    ensures i < j
  {
    var init, last := items[..|items| - 1], items[|items| - 1];
    var heads, before := Heads(items, d, b), Heads(init, d, b);
    var p :| 0 <= p < |items| && MetBy(items, d, b, heads[i], p) && !MetUpTo(items, d, b, heads[j], p);
    HeadsAre(init, d, b);
    HeadsAre(items, d, b);
    assert items == init + [last];
    assert MetBy(items, d, b, heads[i], p);
    if j < |before| {
      assert heads[j] in before;
      var e :| e in init && GoesUnder(e, d, b, heads[j]);
      var q :| 0 <= q < |init| && init[q] == e;
      assert MetBy(items, d, b, heads[j], q);
      assert p < q;
      assert init[p] == items[p] && GoesUnder(init[p], d, b, heads[i]);
      assert heads[i] in before;
      var m :| 0 <= m < |before| && before[m] == heads[i];
      OnePlace(heads, m, i);
      assert MetFirst(init, d, b, before[i], before[j]) by {
        assert MetBy(init, d, b, before[i], p);
        forall r | 0 <= r <= p ensures !MetBy(init, d, b, before[j], r) {
          assert MetBy(items, d, b, heads[j], r) ==> MetUpTo(items, d, b, heads[j], p);
        }
      }
      HeadsAsMet(init, d, b, i, j);
    } else {
      assert MetUpTo(items, d, b, heads[i], p);
      assert heads[i] != heads[j];
    }
  }

  /** Of two segments below a bucket one is met first. */
  lemma SomeMetFirst(items: seq<Entry>, d: nat, b: Bucket, a: Entry, c: Entry)
    requires a in items && c in items
    requires BucketAt(a, d) == b == BucketAt(c, d) && !EndsBy(a, d) && !EndsBy(c, d) && a.segments[d] != c.segments[d]
    ensures MetFirst(items, d, b, a.segments[d], c.segments[d]) || MetFirst(items, d, b, c.segments[d], a.segments[d])
  {
    var p := FirstMet(items, d, b, a);
    var q := FirstMet(items, d, b, c);
    if p < q {
      assert MetBy(items, d, b, a.segments[d], p) && !MetUpTo(items, d, b, c.segments[d], p);
    } else {
      assert MetBy(items, d, b, c.segments[d], q) && !MetUpTo(items, d, b, a.segments[d], q);
    }
  }

  lemma {:induction false} FirstMet(items: seq<Entry>, d: nat, b: Bucket, e: Entry) returns (p: nat)
    requires e in items && BucketAt(e, d) == b && !EndsBy(e, d)
    ensures p < |items| && MetBy(items, d, b, e.segments[d], p)
    ensures forall q | 0 <= q < p :: !MetBy(items, d, b, e.segments[d], q)
  {
    p := 0;
    if !GoesUnder(items[0], d, b, e.segments[d]) {
      var later := FirstMet(items[1..], d, b, e);
      p := later + 1;
      forall q | 0 <= q < p ensures !MetBy(items, d, b, e.segments[d], q) {
        if q > 0 {
          assert !MetBy(items[1..], d, b, e.segments[d], q - 1);
        }
      }
    }
  }

  // ---- the order keeps it ----

  /** An entry is in one branch of several. */
  ghost predicate In(groups: seq<seq<Entry>>, at: nat, e: Entry) {
    at < |groups| && e in groups[at] && forall i | 0 <= i < |groups| :: e in groups[i] ==> i == at
  }

  lemma InSlot(items: seq<Entry>, d: nat, b: Bucket, e: Entry)
    ensures e in SlotOf(items, d, b) ==> e in items
  {
    TimesSlot(items, d, b, e);
    assert e in SlotOf(items, d, b) <==> Times(SlotOf(items, d, b), e) > 0;
    assert e in items <==> Times(items, e) > 0;
  }

  /** In one bucket an earlier branch runs whole before a later one. */
  lemma {:induction false} EarlierBranchFirst(
      groups: seq<seq<Entry>>, d: nat, b: Bucket, i: nat, j: nat, a: Entry, c: Entry)
    requires In(groups, i, a) && In(groups, j, c) && i < j
    ensures AllBefore(BlockOf(groups, d, b), a, c)
    decreases |groups|
  {
    var rest := groups[1..];
    InSlot(groups[0], d, b, a);
    InSlot(groups[0], d, b, c);
    assert c !in groups[0];
    if i == 0 {
      NotInBlock(rest, d, b, a);
    } else {
      assert In(rest, i - 1, a) && In(rest, j - 1, c);
      EarlierBranchFirst(rest, d, b, i - 1, j - 1, a, c);
    }
    BeforeConcat(SlotOf(groups[0], d, b), BlockOf(rest, d, b), a, c);
  }

  lemma BranchesInOrder(groups: seq<seq<Entry>>, d: nat, i: nat, j: nat, a: Entry, c: Entry)
    requires In(groups, i, a) && In(groups, j, c) && i < j && BucketAt(a, d) == BucketAt(c, d)
    ensures AllBefore(OrderOf(groups, d), a, c)
  {
    forall b ensures AllBefore(BlockOf(groups, d, b), a, c) {
      EarlierBranchFirst(groups, d, b, i, j, a, c);
    }
    BeforeInOrder(groups, d, a, c);
  }

  /** In one bucket, what one branch holds runs as it does there. */
  lemma {:induction false} OneBranchKeeps(groups: seq<seq<Entry>>, d: nat, b: Bucket, at: nat, a: Entry, c: Entry)
    requires In(groups, at, a) && In(groups, at, c)
    requires AllBefore(SlotOf(groups[at], d, b), a, c)
    ensures AllBefore(BlockOf(groups, d, b), a, c)
    decreases |groups|
  {
    var rest := groups[1..];
    InSlot(groups[0], d, b, a);
    InSlot(groups[0], d, b, c);
    if at == 0 {
      NotInBlock(rest, d, b, a);
      NotInBlock(rest, d, b, c);
    } else {
      assert In(rest, at - 1, a) && In(rest, at - 1, c);
      OneBranchKeeps(rest, d, b, at - 1, a, c);
    }
    BeforeConcat(SlotOf(groups[0], d, b), BlockOf(rest, d, b), a, c);
  }

  /** What leads in one branch runs first among all. */
  lemma {:induction false} LeadsInOrder(groups: seq<seq<Entry>>, d: nat, at: nat, a: Entry, c: Entry)
    requires In(groups, at, a) && In(groups, at, c) && Leads(groups[at], a, c, d)
    ensures AllBefore(OrderOf(groups, d), a, c)
    decreases |a.segments| - d, 2
  {
    if Rank(BucketAt(a, d)) < Rank(BucketAt(c, d)) {
      EarlierBucketFirst(groups, d, a, c);
    } else {
      forall b ensures AllBefore(BlockOf(groups, d, b), a, c) {
        LeadsInSlot(groups[at], d, b, a, c);
        OneBranchKeeps(groups, d, b, at, a, c);
      }
      BeforeInOrder(groups, d, a, c);
    }
  }

  lemma {:induction false} LeadsInSlot(items: seq<Entry>, d: nat, b: Bucket, a: Entry, c: Entry)
    requires a in items && c in items && Leads(items, a, c, d) && BucketAt(a, d) == BucketAt(c, d)
    ensures AllBefore(SlotOf(items, d, b), a, c)
    decreases |a.segments| - d, 1
  {
    EndsAre(items, d, b, a);
    EndsAre(items, d, b, c);
    if BucketAt(a, d) == b && EndsBy(a, d) && EndsBy(c, d) {
      EndsInOrder(items, d, b, a, c);
    }
    if |Heads(items, d, b)| > 0 {
      var groups := Children(items, d, b, Heads(items, d, b));
      InBelow(items, d, b, a);
      InBelow(items, d, b, c);
      if BucketAt(a, d) == b && !EndsBy(a, d) {
        BelowInOrder(items, d, a, c);
      }
      ChildrenReachLess(items, d, b);
      BeforeConcat(Ends(items, d, b), OrderOf(groups, d + 1), a, c);
    }
  }

  lemma {:induction false} BelowInOrder(items: seq<Entry>, d: nat, a: Entry, c: Entry)
    requires a in items && c in items && BucketAt(a, d) == BucketAt(c, d)
    requires !EndsBy(a, d) && !EndsBy(c, d) && LeadsBelow(items, a, c, d)
    ensures AllBefore(OrderOf(Children(items, d, BucketAt(a, d), Heads(items, d, BucketAt(a, d))), d + 1), a, c)
    decreases |a.segments| - d, 0
  {
    var b := BucketAt(a, d);
    var heads := Heads(items, d, b);
    var groups := Children(items, d, b, heads);
    var i := BranchOf(items, d, a);
    var j := BranchOf(items, d, c);
    if a.segments[d] == c.segments[d] {
      LeadsInOrder(groups, d + 1, i, a, c);
    } else if Rank(BucketAt(a, d + 1)) < Rank(BucketAt(c, d + 1)) {
      EarlierBucketFirst(groups, d + 1, a, c);
    } else {
      HeadsAsMet(items, d, b, i, j);
      BranchesInOrder(groups, d + 1, i, j, a, c);
    }
  }

  /** The branch an entry goes on in below its bucket. */
  lemma BranchOf(items: seq<Entry>, d: nat, e: Entry) returns (at: nat)
    requires e in items && !EndsBy(e, d)
    ensures at < |Heads(items, d, BucketAt(e, d))| && Heads(items, d, BucketAt(e, d))[at] == e.segments[d]
    ensures In(Children(items, d, BucketAt(e, d), Heads(items, d, BucketAt(e, d))), at, e)
  {
    var b := BucketAt(e, d);
    var heads := Heads(items, d, b);
    HeadsAre(items, d, b);
    assert GoesUnder(e, d, b, e.segments[d]);
    assert e.segments[d] in heads;
    at :| 0 <= at < |heads| && heads[at] == e.segments[d];
    forall i | 0 <= i < |heads| ensures e in Below(items, d, b, heads[i]) <==> heads[i] == e.segments[d] {
      BelowAre(items, d, b, heads[i], e);
    }
  }

  // ---- and is a total order ----

  /** Of two entries of a branch written once each, one leads. */
  lemma {:induction false} OneLeads(items: seq<Entry>, a: Entry, c: Entry, d: nat)
    requires NoRepeats(items) && a in items && c in items && a != c
    ensures Leads(items, a, c, d) || Leads(items, c, a, d)
    decreases |a.segments| - d
  {
    if BucketAt(a, d) == BucketAt(c, d) {
      var b := BucketAt(a, d);
      if EndsBy(a, d) && EndsBy(c, d) {
        WrittenFirst(items, a, c);
      } else if !EndsBy(a, d) && !EndsBy(c, d) {
        if a.segments[d] == c.segments[d] {
          var below := Below(items, d, b, a.segments[d]);
          BelowAre(items, d, b, a.segments[d], a);
          BelowAre(items, d, b, a.segments[d], c);
          BelowOnce(items, d, b, a.segments[d]);
          OneLeads(below, a, c, d + 1);
        } else {
          SomeMetFirst(items, d, b, a, c);
        }
      }
    }
  }

  lemma WrittenFirst(items: seq<Entry>, a: Entry, c: Entry)
    requires NoRepeats(items) && a in items && c in items && a != c
    ensures AllBefore(items, a, c) || AllBefore(items, c, a)
  {
    var i :| 0 <= i < |items| && items[i] == a;
    var j :| 0 <= j < |items| && items[j] == c;
    forall k | 0 <= k < |items| ensures (items[k] == a ==> k == i) && (items[k] == c ==> k == j) {
      if items[k] == a {
        OnePlace(items, k, i);
      } else if items[k] == c {
        OnePlace(items, k, j);
      }
    }
  }

  lemma {:induction false} BelowOnce(items: seq<Entry>, d: nat, b: Bucket, segment: string)
    requires NoRepeats(items)
    ensures NoRepeats(Below(items, d, b, segment))
  {
    if |items| > 0 {
      var rest := items[1..];
      assert NoRepeats(rest) by {
        forall i, j | 0 <= i < j < |rest| ensures rest[i] != rest[j] {
          assert items[i + 1] != items[j + 1];
        }
      }
      BelowOnce(rest, d, b, segment);
      var first := if GoesUnder(items[0], d, b, segment) then [items[0]] else [];
      forall k | 0 <= k < |rest| ensures rest[k] != items[0] {
        assert rest[k] == items[k + 1];
      }
      BelowAre(rest, d, b, segment, items[0]);
      NoRepeatsConcat(first, Below(rest, d, b, segment));
    }
  }

  /**
   * Of any two entries of a list, one runs before the other exactly when it leads:
   * the order is settled by the patterns, the verbs and what was written first,
   * and by nothing else.
   */
  lemma RunsBeforeExactly(entries: seq<Entry>, a: Entry, c: Entry)
    requires NoRepeats(entries) && a in entries && c in entries && a != c
    ensures AllBefore(FrameworkOrder(entries), a, c) <==> Leads(entries, a, c, 0)
  {
    assert In([entries], 0, a) && In([entries], 0, c);
    if Leads(entries, a, c, 0) {
      LeadsInOrder([entries], 0, 0, a, c);
    } else {
      OneLeads(entries, a, c, 0);
      LeadsInOrder([entries], 0, 0, c, a);
      OrderRearranges(entries);
      var ordered := FrameworkOrder(entries);
      assert multiset(ordered)[a] > 0 && multiset(ordered)[c] > 0;
      var i :| 0 <= i < |ordered| && ordered[i] == a;
      var j :| 0 <= j < |ordered| && ordered[j] == c;
      assert j < i;
    }
  }
}
