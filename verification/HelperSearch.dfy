/**
 * Which helper is to be named for an unread mount (`helperAbove` in
 * `call-routes.ts`): a depth-first search up the graph whose visited set is
 * shared by every branch and never undone.
 */
module HelperSearch {
  import opened Wrappers
  import opened Seqs
  import opened Mounts

  function MountsOn(g: Graph, d: Decl): seq<Mount> {
    if d in g.mounts then g.mounts[d] else []
  }

  /** The first helper met going up, and every declaration visited to find it. */
  function HelperFrom(g: Graph, d: Option<Decl>, seen: set<Decl>): (found: (Option<string>, set<Decl>))
    ensures seen <= found.1
    decreases g.Left(seen), 0
  {
    if d.None? || d.value in seen then (None, seen)
    else if d.value !in g.mounts then (None, seen + {d.value})
    else
      g.EnteringShrinks(d.value, seen);
      HelperAmong(g, g.mounts[d.value], seen + {d.value})
  }

  function HelperAmong(g: Graph, mounts: seq<Mount>, seen: set<Decl>): (found: (Option<string>, set<Decl>))
    ensures seen <= found.1
    decreases g.Left(seen), 1, |mounts|
  {
    if |mounts| == 0 then (None, seen)
    else if mounts[0].through.Some? then (mounts[0].through, seen)
    else
      var above := HelperFrom(g, OwnerOf(g.dialect, mounts[0].parent), seen);
      if above.0.Some? then above
      else
        MoreSeen(g, seen, above.1);
        HelperAmong(g, mounts[1..], above.1)
  }

  lemma MoreSeen(g: Graph, seen: set<Decl>, more: set<Decl>)
    requires seen <= more
    ensures g.Left(more) <= g.Left(seen)
  {
    SubsetSize(g.Known() - more, g.Known() - seen);
  }

  /** One declaration is hung in another, through whatever chain the mount is written on. */
  ghost predicate HungIn(g: Graph, d: Decl, above: Decl) {
    exists m :: m in MountsOn(g, d) && OwnerOf(g.dialect, m.parent) == Some(above)
  }

  ghost predicate IsClimb(g: Graph, climb: seq<Decl>) {
    |climb| >= 1 && forall j | 0 <= j < |climb| - 1 :: HungIn(g, climb[j], climb[j + 1])
  }

  /** Whether a declaration is hung by a helper that hid its path. */
  ghost predicate HidBy(g: Graph, d: Decl, helper: string) {
    exists m :: m in MountsOn(g, d) && m.through == Some(helper)
  }

  /** A mount that hides no path and whose owner, if it has one, has been visited. */
  ghost predicate Searched(g: Graph, m: Mount, seen: set<Decl>) {
    m.through.None? && (OwnerOf(g.dialect, m.parent).Some? ==> OwnerOf(g.dialect, m.parent).value in seen)
  }

  /** Every declaration visited since is searched in full. */
  ghost predicate Explored(g: Graph, before: set<Decl>, after: set<Decl>) {
    forall d, m :: d in after && d !in before && m in MountsOn(g, d) ==> Searched(g, m, after)
  }

  lemma ExploredOn(g: Graph, before: set<Decl>, middle: set<Decl>, after: set<Decl>)
    requires Explored(g, before, middle) && Explored(g, middle, after) && middle <= after
    ensures Explored(g, before, after)
  {
    forall d, m | d in after && d !in before && m in MountsOn(g, d) ensures Searched(g, m, after) {
      if d in middle {
        assert Searched(g, m, middle);
      }
    }
  }

  lemma {:induction false} NothingFrom(g: Graph, d: Option<Decl>, seen: set<Decl>)
    requires HelperFrom(g, d, seen).0.None?
    ensures d.Some? ==> d.value in HelperFrom(g, d, seen).1
    ensures Explored(g, seen, HelperFrom(g, d, seen).1)
    decreases g.Left(seen), 0
  {
    if d.Some? && d.value !in seen && d.value in g.mounts {
      g.EnteringShrinks(d.value, seen);
      NothingAmong(g, g.mounts[d.value], seen + {d.value});
    }
  }

  lemma {:induction false} NothingAmong(g: Graph, mounts: seq<Mount>, seen: set<Decl>)
    requires HelperAmong(g, mounts, seen).0.None?
    ensures forall m :: m in mounts ==> Searched(g, m, HelperAmong(g, mounts, seen).1)
    ensures Explored(g, seen, HelperAmong(g, mounts, seen).1)
    decreases g.Left(seen), 1, |mounts|
  {
    if |mounts| > 0 {
      var owner := OwnerOf(g.dialect, mounts[0].parent);
      NothingFrom(g, owner, seen);
      var after := HelperFrom(g, owner, seen).1;
      MoreSeen(g, seen, after);
      NothingAmong(g, mounts[1..], after);
      var final := HelperAmong(g, mounts[1..], after).1;
      assert HelperAmong(g, mounts, seen).1 == final;
      ExploredOn(g, seen, after, final);
      assert forall m :: m in mounts ==> m == mounts[0] || m in mounts[1..];
      assert Searched(g, mounts[0], final);
    }
  }

  lemma ClimbFromBelow(g: Graph, d: Decl, rest: seq<Decl>)
    requires IsClimb(g, rest) && HungIn(g, d, rest[0])
    ensures IsClimb(g, [d] + rest)
  {
    var climb := [d] + rest;
    forall j | 0 <= j < |climb| - 1 ensures HungIn(g, climb[j], climb[j + 1]) {
      if j > 0 {
        assert HungIn(g, rest[j - 1], rest[j]);
      }
    }
  }

  lemma {:induction false} FoundFrom(g: Graph, d: Decl, seen: set<Decl>) returns (climb: seq<Decl>)
    requires HelperFrom(g, Some(d), seen).0.Some?
    ensures IsClimb(g, climb) && climb[0] == d
    ensures HidBy(g, climb[|climb| - 1], HelperFrom(g, Some(d), seen).0.value)
    decreases g.Left(seen), 0
  {
    g.EnteringShrinks(d, seen);
    assert g.mounts[d][0..] == g.mounts[d];
    climb := FoundAmong(g, d, 0, seen + {d});
  }

  lemma {:induction false} FoundAmong(g: Graph, d: Decl, from: nat, seen: set<Decl>) returns (climb: seq<Decl>)
    requires from <= |MountsOn(g, d)|
    requires HelperAmong(g, MountsOn(g, d)[from..], seen).0.Some?
    ensures IsClimb(g, climb) && climb[0] == d
    ensures HidBy(g, climb[|climb| - 1], HelperAmong(g, MountsOn(g, d)[from..], seen).0.value)
    decreases g.Left(seen), 1, |MountsOn(g, d)| - from
  {
    var m := MountsOn(g, d)[from];
    assert MountsOn(g, d)[from..][0] == m && MountsOn(g, d)[from..][1..] == MountsOn(g, d)[from + 1..];
    assert m in MountsOn(g, d);
    if m.through.Some? {
      climb := [d];
    } else {
      var owner := OwnerOf(g.dialect, m.parent);
      var above := HelperFrom(g, owner, seen);
      if above.0.Some? {
        var rest := FoundFrom(g, owner.value, seen);
        climb := [d] + rest;
        ClimbFromBelow(g, d, rest);
      } else {
        MoreSeen(g, seen, above.1);
        climb := FoundAmong(g, d, from + 1, above.1);
      }
    }
  }

  /** Nowhere a climb goes from a declaration is a path hidden. */
  lemma {:induction false} ClimbStaysSearched(g: Graph, climb: seq<Decl>, seen: set<Decl>)
    requires IsClimb(g, climb) && climb[0] in seen && Explored(g, {}, seen)
    ensures climb[|climb| - 1] in seen
    decreases |climb|
  {
    if |climb| > 1 {
      assert HungIn(g, climb[0], climb[1]);
      var m :| m in MountsOn(g, climb[0]) && OwnerOf(g.dialect, m.parent) == Some(climb[1]);
      assert Searched(g, m, seen);
      var rest := climb[1..];
      forall j | 0 <= j < |rest| - 1 ensures HungIn(g, rest[j], rest[j + 1]) {
        assert HungIn(g, climb[j + 1], climb[j + 2]);
      }
      ClimbStaysSearched(g, rest, seen);
    }
  }

  /** Some climb leads from one declaration up to another. */
  ghost predicate Reaches(g: Graph, d: Decl, top: Decl) {
    exists climb :: IsClimb(g, climb) && climb[0] == d && climb[|climb| - 1] == top
  }

  /**
   * A helper is named exactly when some application above, however far, is hung
   * by one, and the one named hangs one of them: searching each application once
   * misses none.
   */
  lemma {:induction false} NamesHelperIfAny(g: Graph, d: Decl)
    ensures var named := HelperFrom(g, Some(d), {}).0;
            && (named.None? <==> forall top, h :: Reaches(g, d, top) ==> !HidBy(g, top, h))
            && (named.Some? ==> exists top :: Reaches(g, d, top) && HidBy(g, top, named.value))
  {
    var found := HelperFrom(g, Some(d), {});
    if found.0.Some? {
      var climb := FoundFrom(g, d, {});
      assert Reaches(g, d, climb[|climb| - 1]);
    } else {
      NothingFrom(g, Some(d), {});
      forall top, h | Reaches(g, d, top) ensures !HidBy(g, top, h) {
        var climb :| IsClimb(g, climb) && climb[0] == d && climb[|climb| - 1] == top;
        ClimbStaysSearched(g, climb, found.1);
        assert forall m | m in MountsOn(g, top) :: Searched(g, m, found.1);
      }
    }
  }
}
