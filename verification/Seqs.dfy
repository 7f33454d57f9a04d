/** Facts about sequences the proofs name rather than leave to be found. */
module Seqs {
  lemma Associates<T>(a: seq<T>, b: seq<T>, c: seq<T>)
    ensures a + (b + c) == (a + b) + c
  {
  }

  lemma ConcatTail<T>(a: seq<T>, b: seq<T>)
    requires |a| > 0
    ensures |a + b| > 0 && (a + b)[0] == a[0] && (a + b)[1..] == a[1..] + b
  {
  }

  lemma ConcatEmpty<T>(a: seq<T>, b: seq<T>)
    ensures |a| == 0 ==> a + b == b
    ensures |b| == 0 ==> a + b == a
  {
  }

  lemma ConcatAt<T>(a: seq<T>, b: seq<T>)
    ensures |b| > 0 ==> (a + b)[|a|] == b[0]
  {
  }

  lemma ConsTail<T>(x: T, rest: seq<T>)
    ensures |[x] + rest| > 0 && ([x] + rest)[0] == x && ([x] + rest)[1..] == rest
  {
  }

  lemma TakeMore<T>(items: seq<T>, i: nat)
    requires i < |items|
    ensures items[..i + 1] == items[..i] + [items[i]]
    ensures items[..i + 1][..i] == items[..i]
  {
  }

  lemma HeadTail<T>(items: seq<T>)
    requires |items| > 0
    ensures [items[0]] + items[1..] == items
  {
  }

  lemma TogetherAgain<T>(items: seq<T>, k: nat, more: seq<T>)
    requires k <= |items|
    ensures items[..k] + (items[k..] + more) == items + more
  {
  }

  /** What stands before the first mark is determined. */
  lemma {:induction false} SameUpToMark<T>(a: seq<T>, rest: seq<T>, b: seq<T>, rest': seq<T>, mark: T)
    requires mark !in a && mark !in b
    requires |rest| > 0 ==> rest[0] == mark
    requires |rest'| > 0 ==> rest'[0] == mark
    requires a + rest == b + rest'
    ensures a == b && rest == rest'
  {
    ConcatEmpty(a, rest);
    ConcatEmpty(b, rest');
    if |a| > 0 && |b| > 0 {
      ConcatTail(a, rest);
      ConcatTail(b, rest');
      SameUpToMark(a[1..], rest, b[1..], rest', mark);
      assert a == [a[0]] + a[1..] && b == [b[0]] + b[1..];
    } else if |a| > 0 {
      ConcatTail(a, rest);
    } else if |b| > 0 {
      ConcatTail(b, rest');
    }
  }

  ghost predicate NoRepeats<T(!new)>(items: seq<T>) {
    forall i, j | 0 <= i < j < |items| :: items[i] != items[j]
  }

  lemma NoRepeatsConcat<T(!new)>(a: seq<T>, b: seq<T>)
    requires NoRepeats(a) && NoRepeats(b)
    requires forall x :: x in a ==> x !in b
    ensures NoRepeats(a + b)
  {
    forall i, j | 0 <= i < j < |a + b| ensures (a + b)[i] != (a + b)[j] {
      if i < |a| <= j {
        assert (a + b)[i] in a && (a + b)[j] == b[j - |a|];
      }
    }
  }

  /** `items.flatMap(f)`. */
  function FlatMap<T, U>(items: seq<T>, f: T -> seq<U>): seq<U> {
    if |items| == 0 then [] else FlatMap(items[..|items| - 1], f) + f(items[|items| - 1])
  }

  lemma {:induction false} FlatMapHolds<T, U>(items: seq<T>, f: T -> seq<U>, x: U)
    ensures x in FlatMap(items, f) <==> exists i | 0 <= i < |items| :: x in f(items[i])
  {
    if |items| > 0 {
      var init, last := items[..|items| - 1], items[|items| - 1];
      FlatMapHolds(init, f, x);
      assert forall i | 0 <= i < |init| :: items[i] == init[i];
      if i :| 0 <= i < |init| && x in f(init[i]) {
        assert x in f(items[i]);
      }
      if x in f(last) {
        assert x in f(items[|items| - 1]);
      }
    }
  }

  lemma FlatMapMore<T, U>(items: seq<T>, f: T -> seq<U>, i: nat)
    requires i < |items|
    ensures FlatMap(items[..i + 1], f) == FlatMap(items[..i], f) + f(items[i])
  {
    TakeMore(items, i);
  }

  /** A list without what it holds already, first come first kept. */
  function Unique<T(==)>(items: seq<T>): seq<T> {
    if |items| == 0 then []
    else
      var before := Unique(items[..|items| - 1]);
      if items[|items| - 1] in before then before else before + [items[|items| - 1]]
  }

  lemma {:induction false} UniqueHolds<T(!new)>(items: seq<T>)
    ensures forall x :: x in Unique(items) <==> x in items
    ensures NoRepeats(Unique(items))
    ensures |Unique(items)| <= |items|
  {
    if |items| > 0 {
      UniqueHolds(items[..|items| - 1]);
      assert items == items[..|items| - 1] + [items[|items| - 1]];
    }
  }

  lemma {:induction false} SubsetSize<T>(a: set<T>, b: set<T>)
    requires a <= b
    ensures |a| <= |b|
  {
    if |a| > 0 {
      var x :| x in a;
      SubsetSize(a - {x}, b - {x});
    }
  }

  lemma ProductMore(a: nat, b: nat)
    ensures (a + 1) * b == a * b + b
  {
  }

  lemma NotLess(a: nat, b: nat)
    requires a > 0 && b > 0
    ensures a * b >= a && a * b > 0
  {
  }
}
