/**
 * The order a list of path-scoped middleware runs in, and what that order keeps
 * and puts first (`bucketOf` and `inFrameworkOrder` in `medusa-routes.ts`). The
 * order is stated here on lists; `MiddlewareTrie` files and walks the tree.
 */
module MiddlewareOrder {
  import opened Seqs

  /** One entry of the list: the segments of its pattern, and whether it names verbs. */
  datatype Entry = Entry(segments: seq<string>, namesVerbs: bool, id: nat)

  /** The five classes a segment is filed under, listed first to last as they run. */
  datatype Bucket = Global | Wildcard | Regex | Static | Params

  const BUCKETS := [Global, Wildcard, Regex, Static, Params]

  function Rank(b: Bucket): (rank: nat)
    ensures rank < |BUCKETS| && BUCKETS[rank] == b
  {
    match b
    case Global => 0
    case Wildcard => 1
    case Regex => 2
    case Static => 3
    case Params => 4
  }

  const PATTERN_CHARACTERS := {'(', '+', '*', '[', ']', '!', ')'}

  /** The class of a pattern's segment at a depth. */
  function BucketOf(segment: string, namesVerbs: bool): Bucket {
    if !namesVerbs then Global
    else if |segment| > 0 && segment[0] == '*' then Wildcard
    else if |segment| > 0 && segment[0] == ':' then Params
    else if exists i | 0 <= i < |segment| :: segment[i] in PATTERN_CHARACTERS then Regex
    else Static
  }

  /** The bucket of an entry at a depth; a pattern of no segments has one of its own. */
  function BucketAt(e: Entry, d: nat): Bucket {
    if d < |e.segments| then BucketOf(e.segments[d], e.namesVerbs)
    else if e.namesVerbs then Static else Global
  }

  /** Whether an entry is filed at a depth, rather than under one of its children. */
  predicate EndsBy(e: Entry, d: nat) {
    |e.segments| <= d + 1
  }

  // ---- the parts of one branch ----

  /** The entries of a branch filed in a bucket of its own. */
  function Ends(items: seq<Entry>, d: nat, b: Bucket): seq<Entry> {
    if |items| == 0 then []
    else (if BucketAt(items[0], d) == b && EndsBy(items[0], d) then [items[0]] else []) + Ends(items[1..], d, b)
  }

  /** Whether an entry goes on below a bucket under a segment. */
  predicate GoesUnder(e: Entry, d: nat, b: Bucket, segment: string) {
    BucketAt(e, d) == b && !EndsBy(e, d) && e.segments[d] == segment
  }

  /** The entries that go on below a bucket under a segment. */
  function Below(items: seq<Entry>, d: nat, b: Bucket, segment: string): seq<Entry> {
    if |items| == 0 then []
    else (if GoesUnder(items[0], d, b, segment) then [items[0]] else []) + Below(items[1..], d, b, segment)
  }

  /** The segments below a bucket, in the order each was first met. */
  function Heads(items: seq<Entry>, d: nat, b: Bucket): seq<string> {
    if |items| == 0 then []
    else
      var before := Heads(items[..|items| - 1], d, b);
      var last := items[|items| - 1];
      if BucketAt(last, d) == b && !EndsBy(last, d) && last.segments[d] !in before then before + [last.segments[d]]
      else before
  }

  /** What is below each of a bucket's segments. */
  function Children(items: seq<Entry>, d: nat, b: Bucket, heads: seq<string>): (groups: seq<seq<Entry>>)
    ensures |groups| == |heads|
    ensures forall i | 0 <= i < |heads| :: groups[i] == Below(items, d, b, heads[i])
  {
    seq(|heads|, i requires 0 <= i < |heads| => Below(items, d, b, heads[i]))
  }

  lemma {:induction false} EndsAre(items: seq<Entry>, d: nat, b: Bucket, e: Entry)
    ensures e in Ends(items, d, b) <==> e in items && BucketAt(e, d) == b && EndsBy(e, d)
  {
    if |items| > 0 {
      EndsAre(items[1..], d, b, e);
    }
  }

  lemma {:induction false} BelowAre(items: seq<Entry>, d: nat, b: Bucket, segment: string, e: Entry)
    ensures e in Below(items, d, b, segment) <==> e in items && GoesUnder(e, d, b, segment)
  {
    if |items| > 0 {
      BelowAre(items[1..], d, b, segment, e);
    }
  }

  lemma {:induction false} HeadsAre(items: seq<Entry>, d: nat, b: Bucket)
    ensures NoRepeats(Heads(items, d, b))
    ensures forall s :: s in Heads(items, d, b) <==> exists e :: e in items && GoesUnder(e, d, b, s)
  {
    if |items| > 0 {
      var before := items[..|items| - 1];
      var last := items[|items| - 1];
      HeadsAre(before, d, b);
      assert items == before + [last];
      forall s ensures s in Heads(items, d, b) <==> exists e :: e in items && GoesUnder(e, d, b, s) {
        if s in Heads(items, d, b) && s !in Heads(before, d, b) {
          assert GoesUnder(last, d, b, s);
        }
        if e :| e in items && GoesUnder(e, d, b, s) {
          assert e == last || e in before;
        }
      }
    }
  }

  // ---- the order ----

  /** How many segments at most an entry of a list has past a depth. */
  ghost function Reach(items: seq<Entry>, d: nat): nat {
    if |items| == 0 then 0
    else
      var first := if |items[0].segments| > d then |items[0].segments| - d else 0;
      if first > Reach(items[1..], d) then first else Reach(items[1..], d)
  }

  ghost function Reaches(groups: seq<seq<Entry>>, d: nat): nat {
    if |groups| == 0 then 0
    else if Reach(groups[0], d) > Reaches(groups[1..], d) then Reach(groups[0], d) else Reaches(groups[1..], d)
  }

  lemma {:induction false} ReachBounds(items: seq<Entry>, d: nat, e: Entry)
    requires e in items
    ensures |e.segments| <= d + Reach(items, d)
  {
    if e != items[0] {
      ReachBounds(items[1..], d, e);
    }
  }

  lemma {:induction false} ReachLeast(items: seq<Entry>, d: nat, bound: nat)
    requires forall e :: e in items ==> |e.segments| <= d + bound
    ensures Reach(items, d) <= bound
  {
    if |items| > 0 {
      assert items[0] in items;
      ReachLeast(items[1..], d, bound);
    }
  }

  lemma {:induction false} ReachesLeast(groups: seq<seq<Entry>>, d: nat, bound: nat)
    requires forall i | 0 <= i < |groups| :: Reach(groups[i], d) <= bound
    ensures Reaches(groups, d) <= bound
  {
    if |groups| > 0 {
      ReachesLeast(groups[1..], d, bound);
    }
  }

  /** What is below a branch reaches less far than the branch does. */
  lemma {:induction false} ChildrenReachLess(items: seq<Entry>, d: nat, b: Bucket)
    requires |Heads(items, d, b)| > 0
    ensures Reaches(Children(items, d, b, Heads(items, d, b)), d + 1) < Reach(items, d)
  {
    HeadsAre(items, d, b);
    var heads := Heads(items, d, b);
    assert heads[0] in heads;
    var some :| some in items && GoesUnder(some, d, b, heads[0]);
    ReachBounds(items, d, some);
    var groups := Children(items, d, b, heads);
    forall i | 0 <= i < |groups| ensures Reach(groups[i], d + 1) <= Reach(items, d) - 1 {
      forall e: Entry | e in groups[i] ensures |e.segments| <= d + 1 + (Reach(items, d) - 1) {
        BelowAre(items, d, b, heads[i], e);
        ReachBounds(items, d, e);
      }
      ReachLeast(groups[i], d + 1, Reach(items, d) - 1);
    }
    ReachesLeast(groups, d + 1, Reach(items, d) - 1);
  }

  /** Several branches walked together: bucket after bucket, and in each one branch after another. */
  function OrderOf(groups: seq<seq<Entry>>, d: nat): seq<Entry>
    decreases Reaches(groups, d), 2
  {
    BlockOf(groups, d, Global) + BlockOf(groups, d, Wildcard) + BlockOf(groups, d, Regex)
    + BlockOf(groups, d, Static) + BlockOf(groups, d, Params)
  }

  /** One bucket of several branches. */
  function BlockOf(groups: seq<seq<Entry>>, d: nat, b: Bucket): seq<Entry>
    decreases Reaches(groups, d), 1, |groups|
  {
    if |groups| == 0 then []
    else SlotOf(groups[0], d, b) + BlockOf(groups[1..], d, b)
  }

  /** One bucket of one branch: what is filed in it, then everything below it walked together. */
  function SlotOf(items: seq<Entry>, d: nat, b: Bucket): seq<Entry>
    decreases Reach(items, d), 0
  {
    var heads := Heads(items, d, b);
    if |heads| == 0 then Ends(items, d, b)
    else
      ChildrenReachLess(items, d, b);
      Ends(items, d, b) + OrderOf(Children(items, d, b, heads), d + 1)
  }

  /** The specification: all entries as one group, ordered from the first segment. */
  function FrameworkOrder(entries: seq<Entry>): seq<Entry> {
    OrderOf([entries], 0)
  }
}
