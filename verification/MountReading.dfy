/**
 * What the answers of the mount walk mean: the address and the guards a way
 * spells, and how one unread mount or a cycle of mounts takes the whole answer
 * away - and when it does not.
 */
module MountReading {
  import opened Seqs
  import opened Wrappers
  import opened Text
  import opened Paths
  import opened Mounts
  import opened MountWays

  // ---- the address and the guards along one way ----

  function ShiftOf(g: Graph, d: Decl): seq<string> {
    if d in g.shifted && g.shifted[d].Some? then Segments(g.shifted[d].value) else []
  }

  /** The segments of a way's address, outermost mount first. */
  function PathOf(g: Graph, w: Way): seq<string> {
    match w
    case Base(path) => Segments(path)
    case Same(inner) => PathOf(g, inner)
    case Under(inner, at, _, _) => PathOf(g, inner) + Segments(at)
    case Top(d, value) => ShiftOf(g, d) + PathOf(g, value)
    case HungAt(d, _, _, at, up, own) =>
      PathOf(g, up) + Segments(at) + (if own.Some? then ShiftOf(g, d) + PathOf(g, own.value) else [])
  }

  /** A point at which an application was left for one below it, and the address it is served at. */
  datatype Level = Level(owner: Option<Decl>, site: Site, above: seq<string>)

  /** The applications a way passes through, outermost first. */
  function Levels(g: Graph, w: Way): seq<Level> {
    match w
    case Base(_) => []
    case Same(inner) => Levels(g, inner)
    case Under(inner, _, owner, site) => Levels(g, inner) + [Level(owner, site, PathOf(g, inner))]
    case Top(_, value) => Levels(g, value)
    case HungAt(_, _, mount, _, up, own) =>
      Levels(g, up) + [Level(OwnerOf(g.dialect, mount.parent), mount.site, PathOf(g, up))]
      + (if own.Some? then Levels(g, own.value) else [])
  }

  /** What each level put in front of everything below it. */
  function GuardsAt(g: Graph, levels: seq<Level>): seq<Install> {
    if |levels| == 0 then []
    else GuardsOn(g, levels[0].owner, levels[0].site, Rooted(levels[0].above)) + GuardsAt(g, levels[1..])
  }

  lemma {:induction false} GuardsAtConcat(g: Graph, a: seq<Level>, b: seq<Level>)
    ensures GuardsAt(g, a + b) == GuardsAt(g, a) + GuardsAt(g, b)
  {
    if |a| == 0 {
      ConcatEmpty(a, b);
    } else {
      ConcatTail(a, b);
      GuardsAtConcat(g, a[1..], b);
      Associates(GuardsOn(g, a[0].owner, a[0].site, Rooted(a[0].above)), GuardsAt(g, a[1..]), GuardsAt(g, b));
    }
  }

  /** A rebased install depends on the segments of the prefix and not on how it is spelled. */
  lemma {:induction false} GuardsReadSegments(
      g: Graph, owner: Option<Decl>, site: Site, prefix: string, segments: seq<string>)
    requires Segments(prefix) == segments
    ensures GuardsOn(g, owner, site, prefix) == GuardsOn(g, owner, site, Rooted(segments))
  {
    if owner.Some? {
      BeforeReadsSegments(InstallsOf(g, owner.value), site, prefix, segments);
    }
  }

  lemma {:induction false} BeforeReadsSegments(
      installs: seq<Install>, site: Site, prefix: string, segments: seq<string>)
    requires Segments(prefix) == segments
    ensures Before(installs, site, prefix) == Before(installs, site, Rooted(segments))
  {
    if |installs| > 0 {
      BeforeReadsSegments(installs[1..], site, prefix, segments);
      SegmentsAre(prefix);
      SegmentsRooted(segments);
      var at := installs[0].at;
      if at.Some? {
        AllSegmentsOf(prefix, at.value, "");
        AllSegmentsOf(Rooted(segments), at.value, "");
        JoinPathReadsSegments([Some(prefix), at], [Some(Rooted(segments)), at]);
      }
    }
  }

  /** Written in a site's own file, before it. */
  predicate WrittenBefore(install: Install, site: Site) {
    install.site.file == site.file && install.site.pos < site.pos
  }

  /** The positions of the installs written in a site's own file before it. */
  function Positions(installs: seq<Install>, site: Site): (at: seq<nat>)
    ensures forall k | 0 <= k < |at| :: at[k] < |installs|
  {
    if |installs| == 0 then []
    else (if WrittenBefore(installs[0], site) then [0] else []) + OneLater(Positions(installs[1..], site))
  }

  /** They are all of them, in the order written. */
  lemma {:induction false} PositionsExactly(installs: seq<Install>, site: Site)
    ensures forall i :: i in Positions(installs, site) <==> 0 <= i < |installs| && WrittenBefore(installs[i], site)
    ensures forall j, k | 0 <= j < k < |Positions(installs, site)| ::
            Positions(installs, site)[j] < Positions(installs, site)[k]
  {
    if |installs| > 0 {
      PositionsExactly(installs[1..], site);
      var rest := Positions(installs[1..], site);
      forall i ensures i in Positions(installs, site) <==> 0 <= i < |installs| && WrittenBefore(installs[i], site) {
        assert i in OneLater(rest) <==> i - 1 in rest;
        if 0 < i < |installs| {
          assert installs[i] == installs[1..][i - 1];
        }
      }
    }
  }

  /** What stands in front of a site is exactly the installs at those positions. */
  lemma {:induction false} BeforeInOrder(installs: seq<Install>, site: Site, prefix: string)
    ensures Before(installs, site, prefix) == RebasedAt(installs, Positions(installs, site), prefix)
  {
    if |installs| > 0 {
      BeforeInOrder(installs[1..], site, prefix);
      BeforeStep(installs, site, prefix);
      RebasedStep(installs, Positions(installs[1..], site), WrittenBefore(installs[0], site), prefix);
    }
  }

  lemma BeforeStep(installs: seq<Install>, site: Site, prefix: string)
    requires |installs| > 0
    ensures Before(installs, site, prefix)
         == (if WrittenBefore(installs[0], site) then [Rebased(installs[0], prefix)] else [])
            + Before(installs[1..], site, prefix)
  {
  }

  /** The first position and the later ones, with or without the first. */
  lemma RebasedStep(installs: seq<Install>, rest: seq<nat>, first: bool, prefix: string)
    requires |installs| > 0 && forall k | 0 <= k < |rest| :: rest[k] < |installs| - 1
    ensures var at := (if first then [0] else []) + OneLater(rest);
            (forall k | 0 <= k < |at| :: at[k] < |installs|)
            && RebasedAt(installs, at, prefix)
               == (if first then [Rebased(installs[0], prefix)] else []) + RebasedAt(installs[1..], rest, prefix)
  {
    RebasedLater(installs, rest, prefix);
    if first {
      RebasedFirst(installs, 0, OneLater(rest), prefix);
    } else {
      ConcatEmpty([], OneLater(rest));
      ConcatEmpty([], RebasedAt(installs[1..], rest, prefix));
    }
  }

  /** The installs at the positions given, each as it stands under a prefix. */
  function RebasedAt(installs: seq<Install>, at: seq<nat>, prefix: string): seq<Install>
    requires forall k | 0 <= k < |at| :: at[k] < |installs|
  {
    if |at| == 0 then [] else [Rebased(installs[at[0]], prefix)] + RebasedAt(installs, at[1..], prefix)
  }

  lemma RebasedFirst(installs: seq<Install>, first: nat, rest: seq<nat>, prefix: string)
    requires first < |installs| && forall k | 0 <= k < |rest| :: rest[k] < |installs|
    ensures forall k | 0 <= k < |[first] + rest| :: ([first] + rest)[k] < |installs|
    ensures RebasedAt(installs, [first] + rest, prefix)
         == [Rebased(installs[first], prefix)] + RebasedAt(installs, rest, prefix)
  {
    ConsTail(first, rest);
  }

  lemma {:induction false} RebasedLater(installs: seq<Install>, at: seq<nat>, prefix: string)
    requires installs != [] && forall k | 0 <= k < |at| :: at[k] < |installs| - 1
    ensures RebasedAt(installs[1..], at, prefix) == RebasedAt(installs, OneLater(at), prefix)
  {
    if |at| > 0 {
      RebasedLater(installs, at[1..], prefix);
      assert OneLater(at)[1..] == OneLater(at[1..]);
    }
  }

  function OneLater(at: seq<nat>): (moved: seq<nat>)
    ensures |moved| == |at|
    ensures forall k | 0 <= k < |at| :: moved[k] == at[k] + 1
    ensures forall i: int :: i in moved <==> i - 1 in at
  {
    var moved := seq(|at|, k requires 0 <= k < |at| => at[k] + 1);
    assert forall k | 0 <= k < |at| :: moved[k] == at[k] + 1;
    assert forall i: int | i - 1 in at :: i in moved by {
      forall i: int | i - 1 in at ensures i in moved {
        var k :| 0 <= k < |at| && at[k] == i - 1;
        assert moved[k] == i;
      }
    }
    moved
  }

  lemma {:induction false} MovedReads(g: Graph, d: Decl, context: RouteContext)
    ensures Segments(Moved(g, d, context).prefix) == ShiftOf(g, d) + Segments(context.prefix)
    ensures Moved(g, d, context).guards == context.guards
  {
    if d in g.shifted && g.shifted[d].Some? {
      var shift := g.shifted[d].value;
      JoinPathIsRooted([Some(shift), Some(context.prefix)]);
      AllSegmentsOf(shift, context.prefix, "");
    }
  }

  /**
   * A context says the address of its way, prefixes joined outermost first, and
   * its guards are what each application passed had installed before it was left,
   * outermost first.
   */
  lemma {:induction false} ContextReads(g: Graph, w: Way)
    ensures Segments(ContextOf(g, w).prefix) == PathOf(g, w)
    ensures ContextOf(g, w).guards == GuardsAt(g, Levels(g, w))
  {
    match w
    case Base(_) =>
    case Same(inner) =>
      ContextReads(g, inner);
    case Under(inner, at, owner, site) =>
      ContextReads(g, inner);
      var context := ContextOf(g, inner);
      JoinPathIsRooted([Some(context.prefix), Some(at)]);
      AllSegmentsOf(context.prefix, at, "");
      LevelReads(g, Levels(g, inner), owner, site, context.prefix, PathOf(g, inner));
    case Top(d, value) =>
      ContextReads(g, value);
      MovedReads(g, d, ContextOf(g, value));
    case HungAt(d, _, mount, at, up, own) =>
      ContextReads(g, up);
      var outer := ContextOf(g, up);
      var inner := if own.Some? then Moved(g, d, ContextOf(g, own.value)) else ROOT;
      if own.Some? {
        ContextReads(g, own.value);
        MovedReads(g, d, ContextOf(g, own.value));
      }
      JoinPathIsRooted([Some(outer.prefix), Some(at), Some(inner.prefix)]);
      AllSegmentsOf(outer.prefix, at, inner.prefix);
      var owner := OwnerOf(g.dialect, mount.parent);
      LevelReads(g, Levels(g, up), owner, mount.site, outer.prefix, PathOf(g, up));
      GuardsAtConcat(g, Levels(g, up) + [Level(owner, mount.site, PathOf(g, up))],
                     if own.Some? then Levels(g, own.value) else []);
  }

  lemma {:induction false} LevelReads(
      g: Graph, levels: seq<Level>, owner: Option<Decl>, site: Site, prefix: string, above: seq<string>)
    requires Segments(prefix) == above
    ensures GuardsAt(g, levels + [Level(owner, site, above)]) == GuardsAt(g, levels) + GuardsOn(g, owner, site, prefix)
  {
    var last := Level(owner, site, above);
    GuardsAtConcat(g, levels, [last]);
    GuardsReadSegments(g, owner, site, prefix, above);
    assert [last][1..] == [];
  }

  // ---- how the answer is taken away ----

  /** One declaration is hung, by name, in another. */
  ghost predicate NamedAbove(g: Graph, d: Decl, above: Decl) {
    d in g.mounts && exists i | 0 <= i < |g.mounts[d]| :: NamesAt(g.mounts[d], i, above)
  }

  predicate NamesAt(mounts: seq<Mount>, i: nat, above: Decl)
    requires i < |mounts|
  {
    mounts[i].parent.Name? && mounts[i].parent.declared == Some(above)
  }

  ghost predicate HasUnreadMount(g: Graph, d: Decl) {
    d in g.mounts && exists i | 0 <= i < |g.mounts[d]| :: g.mounts[d][i].at.None?
  }

  /** A mount written on what names nothing: no name the repository declares, or made by what makes no application. */
  predicate IsForeign(parent: Expr) {
    (parent.Name? && parent.declared.None?) || (parent.Made? && !parent.app)
  }

  ghost predicate HasForeignMount(g: Graph, d: Decl) {
    d in g.mounts && exists i | 0 <= i < |g.mounts[d]| :: IsForeign(g.mounts[d][i].parent)
  }

  /** A call that leaves what it answers with placed: any but one that moves it by a path that is not read. */
  predicate IsPlaced(dialect: Dialect, called: string, at: Option<string>) {
    dialect.PassesThrough(called) || Some(called) != dialect.prefixMethod || at.Some?
  }

  /** A chain of calls that hand an application back, made in place and given to a name. */
  predicate GivenTo(dialect: Dialect, e: Expr, owner: Decl) {
    match e
    case Name(_, _) => false
    case Made(_, app, given, _) => app && given == Some(owner)
    case Call(receiver, called, at, _, _, app, given, _) =>
      app && given == Some(owner) && IsPlaced(dialect, called, at) && GivenTo(dialect, receiver, owner)
  }

  lemma {:induction false} GivenIsApp(dialect: Dialect, e: Expr, owner: Decl)
    requires GivenTo(dialect, e, owner)
    ensures e.app && e.owner == Some(owner)
  {
  }

  /** Such a chain is told where it is by its name, and on the way down from that name by itself. */
  lemma {:induction false} GivenAnswers(g: Graph, e: Expr, owner: Decl, seen: set<Decl>)
    requires GivenTo(g.dialect, e, owner)
    ensures ContextsOf(g, e, seen).None? <==> owner !in seen && OfDeclaration(g, owner, seen).None?
    decreases e
  {
    if e.Call? {
      GivenIsApp(g.dialect, e.receiver, owner);
      GivenAnswers(g, e.receiver, owner, seen);
    }
  }

  /** One declaration is hung on what was given to another as it was made. */
  ghost predicate OwnedAbove(g: Graph, d: Decl, above: Decl) {
    d in g.mounts && exists i | 0 <= i < |g.mounts[d]| :: GivenTo(g.dialect, g.mounts[d][i].parent, above)
  }

  /** A step up: by a name, or by the name of a chain, which is not gone up again once it was passed. */
  ghost predicate StepsUp(g: Graph, d: Decl, above: Decl, passed: set<Decl>) {
    NamedAbove(g, d, above) || (OwnedAbove(g, d, above) && above !in passed)
  }

  /** A walk up from one declaration to the next. */
  ghost predicate IsWalk(g: Graph, walk: seq<Decl>, seen: set<Decl>) {
    |walk| >= 1 && forall j | 0 <= j < |walk| - 1 :: StepsUp(g, walk[j], walk[j + 1], seen + Passed(walk[..j + 1]))
  }

  function Passed(walk: seq<Decl>): set<Decl> {
    set d | d in walk
  }

  /**
   * Whether a declaration ends every walk that comes to it: met before, moved or
   * hung at a path nobody read, hung on what names nothing, or hung nowhere and
   * given no readable value.
   */
  ghost predicate Stops(g: Graph, d: Decl, passed: set<Decl>) {
    || d in passed
    || (d in g.shifted && g.shifted[d].None?)
    || HasUnreadMount(g, d)
    || HasForeignMount(g, d)
    || (d !in g.mounts && (d !in g.values || Blamed(g, g.values[d], passed + {d})))
  }

  /** A walk from a declaration that comes to something that ends it. */
  ghost predicate IsStopped(g: Graph, d: Decl, seen: set<Decl>, walk: seq<Decl>) {
    && IsWalk(g, walk, seen) && walk[0] == d
    && Stops(g, walk[|walk| - 1], seen + Passed(walk[..|walk| - 1]))
  }

  /** A stopped walk from the declaration above is one from the declaration below. */
  lemma StoppedFromBelow(g: Graph, d: Decl, above: Decl, seen: set<Decl>, rest: seq<Decl>)
    requires StepsUp(g, d, above, seen + {d})
    requires rest != [] && rest[0] == above
    ensures IsStopped(g, above, seen + {d}, rest) <==> IsStopped(g, d, seen, [d] + rest)
  {
    var walk := [d] + rest;
    PassedFromBelow(d, rest, seen, |rest| - 1);
    assert walk[|walk| - 1] == rest[|rest| - 1];
    WalkFromBelow(g, d, above, seen, rest);
  }

  lemma WalkFromBelow(g: Graph, d: Decl, above: Decl, seen: set<Decl>, rest: seq<Decl>)
    requires StepsUp(g, d, above, seen + {d})
    requires rest != [] && rest[0] == above
    ensures IsWalk(g, rest, seen + {d}) <==> IsWalk(g, [d] + rest, seen)
  {
    var walk := [d] + rest;
    if IsWalk(g, walk, seen) {
      forall j | 0 <= j < |rest| - 1 ensures StepsUp(g, rest[j], rest[j + 1], seen + {d} + Passed(rest[..j + 1])) {
        PassedFromBelow(d, rest, seen, j + 1);
        assert StepsUp(g, walk[j + 1], walk[j + 2], seen + Passed(walk[..j + 2]));
      }
    }
    if IsWalk(g, rest, seen + {d}) {
      forall j | 0 <= j < |walk| - 1 ensures StepsUp(g, walk[j], walk[j + 1], seen + Passed(walk[..j + 1])) {
        PassedFromBelow(d, rest, seen, j);
        if j > 0 {
          assert StepsUp(g, rest[j - 1], rest[j], seen + {d} + Passed(rest[..j]));
        } else {
          assert rest[..0] == [];
        }
      }
    }
  }

  lemma PassedFromBelow(d: Decl, rest: seq<Decl>, seen: set<Decl>, k: nat)
    requires k <= |rest|
    ensures ([d] + rest)[..k + 1] == [d] + rest[..k]
    ensures seen + Passed(([d] + rest)[..k + 1]) == seen + {d} + Passed(rest[..k])
  {
  }

  lemma StoppedAtOnce(g: Graph, d: Decl, seen: set<Decl>)
    ensures IsStopped(g, d, seen, [d]) <==> Stops(g, d, seen)
  {
    assert [d][..0] == [];
    assert seen + Passed([]) == seen;
  }

  /**
   * One mount above with an unread path, or a cycle of mounts, takes the whole
   * answer away, however many mounts by name lie between.
   */
  lemma {:induction false} WalkTakesAnswer(g: Graph, walk: seq<Decl>, d: Decl, seen: set<Decl>)
    requires IsStopped(g, d, seen, walk)
    ensures OfDeclaration(g, d, seen).None?
    decreases |walk|
  {
    var _ := OneContextPerDeclWay(g, d, seen);
    if d !in seen && !(d in g.shifted && g.shifted[d].None?) {
      if |walk| == 1 {
        assert walk == [d];
        StoppedAtOnce(g, d, seen);
        if HasUnreadMount(g, d) {
          var i :| 0 <= i < |g.mounts[d]| && g.mounts[d][i].at.None?;
          assert UnreadMount(d, i) in DeclBlames(g, d, seen);
        } else if HasForeignMount(g, d) {
          var i :| 0 <= i < |g.mounts[d]| && IsForeign(g.mounts[d][i].parent);
          UnplacedAbove(g, d, i, seen);
        } else if d !in g.values {
          assert Unwritten(d) in DeclBlames(g, d, seen);
        } else {
          BlameOfUnmounted(g, d, seen);
        }
      } else {
        var rest := walk[1..];
        assert walk == [d] + rest;
        assert walk[..1] == [d];
        assert StepsUp(g, walk[0], walk[1], seen + Passed(walk[..1]));
        StoppedFromBelow(g, d, walk[1], seen, rest);
        WalkTakesAnswer(g, rest, walk[1], seen + {d});
        if NamedAbove(g, d, walk[1]) {
          var i :| 0 <= i < |g.mounts[d]| && NamesAt(g.mounts[d], i, walk[1]);
          UnplacedAbove(g, d, i, seen);
        } else {
          var i :| 0 <= i < |g.mounts[d]| && GivenTo(g.dialect, g.mounts[d][i].parent, walk[1]);
          GivenAnswers(g, g.mounts[d][i].parent, walk[1], seen + {d});
          UnplacedAbove(g, d, i, seen);
        }
      }
    }
  }

  lemma {:induction false} UnplacedAbove(g: Graph, d: Decl, i: nat, seen: set<Decl>)
    requires d !in seen && d in g.mounts && i < |g.mounts[d]|
    requires ContextsOf(g, g.mounts[d][i].parent, seen + {d}).None?
    ensures OfDeclaration(g, d, seen).None?
  {
    var parent := g.mounts[d][i].parent;
    var _ := OneContextPerWay(g, parent, seen + {d});
    var _ := OneContextPerDeclWay(g, d, seen);
    var b :| b in Blames(g, parent, seen + {d});
    assert Above(d, i, b) in DeclBlames(g, d, seen);
  }

  /**
   * How a mount is written, short of an unread prefix: on a name, on an application
   * made in place, or on any call that answers with an application; where that is
   * given to a name itself, a chain of such calls on what was made in place for it.
   */
  predicate WrittenPlainly(dialect: Dialect, parent: Expr) {
    match parent
    case Name(_, _) => true
    case Made(_, _, _, _) => true
    case Call(_, called, at, _, _, app, owner, _) =>
      app && IsPlaced(dialect, called, at) && (owner.None? || GivenTo(dialect, parent, owner.value))
  }

  ghost predicate HungPlainly(g: Graph) {
    forall d, i :: d in g.mounts && 0 <= i < |g.mounts[d]| ==> WrittenPlainly(g.dialect, g.mounts[d][i].parent)
  }

  /** An application made in place, or answered by a call, and given to no name always answers. */
  lemma AlwaysAnswers(g: Graph, e: Expr, seen: set<Decl>)
    requires WrittenPlainly(g.dialect, e) && !e.Name? && !IsForeign(e) && e.owner.None?
    ensures ContextsOf(g, e, seen).Some?
  {
  }

  /**
   * Where every mount is written plainly, an application's address cannot be told
   * exactly when some walk up its mounts, by names alone, comes to something that
   * ends it: a mount at an unread path, or a cycle, takes the answer away from all
   * it is above by name, and is swallowed by a call on a name.
   */
  lemma {:induction false} NoAnswerIffWalkStops(g: Graph, d: Decl, seen: set<Decl>)
    requires HungPlainly(g)
    ensures OfDeclaration(g, d, seen).None? <==> exists walk :: IsStopped(g, d, seen, walk)
  {
    if exists walk :: IsStopped(g, d, seen, walk) {
      var walk :| IsStopped(g, d, seen, walk);
      WalkTakesAnswer(g, walk, d, seen);
    }
    if OfDeclaration(g, d, seen).None? {
      var walk := WalkThatStops(g, d, seen);
    }
  }

  lemma {:induction false} WalkThatStops(g: Graph, d: Decl, seen: set<Decl>) returns (walk: seq<Decl>)
    requires HungPlainly(g) && OfDeclaration(g, d, seen).None?
    ensures IsStopped(g, d, seen, walk)
    decreases g.Left(seen)
  {
    if Stops(g, d, seen) {
      walk := [d];
      StoppedAtOnce(g, d, seen);
    } else {
      var above := UnplacedMountOf(g, d, seen);
      g.EnteringShrinks(d, seen);
      var rest := WalkThatStops(g, above, seen + {d});
      walk := [d] + rest;
      StoppedFromBelow(g, d, above, seen, rest);
    }
  }

  lemma {:induction false} UnplacedMountOf(g: Graph, d: Decl, seen: set<Decl>) returns (above: Decl)
    requires HungPlainly(g) && OfDeclaration(g, d, seen).None? && !Stops(g, d, seen)
    ensures d in g.mounts && StepsUp(g, d, above, seen + {d})
    ensures OfDeclaration(g, above, seen + {d}).None?
  {
    var _ := OneContextPerDeclWay(g, d, seen);
    if d !in g.mounts {
      BlameOfUnmounted(g, d, seen);
    }
    BlameOfMounted(g, d, seen);
    var i :| 0 <= i < |g.mounts[d]| && UnreadAt(g, d, i, seen + {d});
    var parent := g.mounts[d][i].parent;
    var _ := OneContextPerWay(g, parent, seen + {d});
    assert WrittenPlainly(g.dialect, parent) && !IsForeign(parent);
    if parent.Name? {
      above := parent.declared.value;
      assert NamesAt(g.mounts[d], i, above);
      return;
    }
    if parent.owner.None? {
      AlwaysAnswers(g, parent, seen + {d});
    }
    above := parent.owner.value;
    GivenAnswers(g, parent, above, seen + {d});
  }

  // ---- where it is not taken away ----

  /**
   * A mount written on a chained call need not lose its answer with the
   * application the chain starts from. A call on an application nobody could
   * place is read as one made in place, so it tells nothing exactly when it is no
   * application, or was given to a name that tells nothing.
   */
  lemma {:induction false} CallOnUnplaced(g: Graph, e: Expr, seen: set<Decl>)
    requires e.Call? && e.receiver.app && ContextsOf(g, e.receiver, seen).None?
    ensures ContextsOf(g, e, seen).None? <==>
              !e.app || (e.owner.Some? && e.owner.value !in seen && OfDeclaration(g, e.owner.value, seen).None?)
    ensures e.app && (e.owner.None? || e.owner.value in seen) ==>
              ContextsOf(g, e, seen) == Some([ROOT.(prefix := e.base.GetOr(""))])
  {
    assert ContextsOf(g, e, seen) == MadeHere(g, e, seen);
  }

  const EXPRESS := Dialect(Some("use"), Some("use"), None, {"get"}, None, false, false, true)

  /**
   * `service.use(unread, app); app.use(log).use('/b', router)`: `app` hangs at a
   * path nobody read, and the router below it is answered for all the same, at
   * `/b`, because the chained call it hangs from answers as an application of its
   * own.
   */
  lemma UnreadMountSwallowed()
    ensures exists g: Graph, app: Decl, router: Decl ::
              && HungPlainly(g) && HasUnreadMount(g, app) && OfDeclaration(g, app, {}).None?
              && router in g.mounts && |g.mounts[router]| == 1
              && g.mounts[router][0].parent.Call? && g.mounts[router][0].parent.receiver.declared == Some(app)
              && OfDeclaration(g, router, {}).Some?
  {
    var here := Site("app.ts", 0);
    var made := Made(None, true, None, None);
    var chained := Call(Name(Some(1), true), "use", None, here, None, true, None, None);
    var g := Graph(EXPRESS,
                   map[0 := made, 1 := made, 2 := made],
                   map[1 := [Mount(Name(Some(0), true), here, None, None)],
                       2 := [Mount(chained, here, Some("/b"), None)]],
                   map[], map[]);
    assert BasesOf(g, 1, {1}) == UnderMounts(g, g.mounts[1], OwnOf(g, 1, {1}).GetOr([ROOT]), {1});
    assert UnderMounts(g, g.mounts[1], OwnOf(g, 1, {1}).GetOr([ROOT]), {1}).None?;
    assert BasesOf(g, 1, {2, 1}) == UnderMounts(g, g.mounts[1], OwnOf(g, 1, {2, 1}).GetOr([ROOT]), {2, 1});
    assert {2} + {1} == {2, 1};
    assert OfDeclaration(g, 1, {2}).None?;
    assert ContextsOf(g, Name(Some(1), true), {2}).None?;
    CallOnUnplaced(g, chained, {2});
    assert {} + {2} == {2};
    var own := OwnOf(g, 2, {2}).GetOr([ROOT]);
    assert g.mounts[2][1..] == [];
    assert UnderMounts(g, [], own, {2}).Some?;
    assert UnderMounts(g, g.mounts[2], own, {2}).Some?;
    assert OfDeclaration(g, 2, {}) == BasesOf(g, 2, {2});
    assert {} + {1} == {1};
    assert OfDeclaration(g, 1, {}) == BasesOf(g, 1, {1});
    assert g.mounts[1][0].at.None?;
  }
}
