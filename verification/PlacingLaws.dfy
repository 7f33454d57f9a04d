/** Which addresses a repository's route calls are drawn at, and what stands in front of each. */
module PlacingLaws {
  import opened Wrappers
  import opened Seqs
  import opened Text
  import opened Paths
  import opened Mounts
  import opened MountWays
  import opened MountReading
  import opened Placing

  // ---- one entry an id ----

  /** What is drawn is the first way in of every id there is, each id once. */
  lemma {:induction false} FirstOfEachId(entries: seq<Entry>)
    ensures forall i, j | 0 <= i < j < |FirstOfEach(entries)| ::
            FirstOfEach(entries)[i].id != FirstOfEach(entries)[j].id
    ensures Ids(FirstOfEach(entries)) == Ids(entries)
    ensures forall e ::
              e in FirstOfEach(entries) <==> exists i | 0 <= i < |entries| :: IsFirst(entries, i) && entries[i] == e
  {
    if |entries| > 0 {
      var init, last := entries[..|entries| - 1], entries[|entries| - 1];
      FirstOfEachId(init);
      assert entries == init + [last];
      FirstMore(init, last);
      forall i | 0 <= i < |init| ensures IsFirst(entries, i) <==> IsFirst(init, i) {
        assert entries[..i] == init[..i];
      }
      assert entries[..|init|] == init;
      var before := FirstOfEach(init);
      if last.id !in Ids(init) {
        forall i | 0 <= i < |before| ensures before[i].id != last.id {
          assert before[i].id in Ids(before);
        }
        FirstIds(before, last);
        assert IsFirst(entries, |init|);
      }
      FirstHolds(init, last);
    }
  }

  /** No way in before it has its id. */
  predicate IsFirst(entries: seq<Entry>, i: nat)
    requires i < |entries|
  {
    entries[i].id !in Ids(entries[..i])
  }

  lemma FirstIds(entries: seq<Entry>, last: Entry)
    ensures Ids(entries + [last]) == Ids(entries) + {last.id}
  {
    FirstMore(entries, last);
  }

  lemma FirstHolds(init: seq<Entry>, last: Entry)
    requires forall e :: e in FirstOfEach(init) <==> exists i | 0 <= i < |init| :: IsFirst(init, i) && init[i] == e
    ensures forall e :: e in FirstOfEach(init + [last]) <==>
              exists i | 0 <= i < |init + [last]| :: IsFirst(init + [last], i) && (init + [last])[i] == e
  {
    var entries := init + [last];
    FirstMore(init, last);
    assert entries[..|init|] == init;
    forall i | 0 <= i < |init| ensures entries[i] == init[i] && (IsFirst(entries, i) <==> IsFirst(init, i)) {
      assert entries[..i] == init[..i];
    }
    forall e | e in FirstOfEach(entries)
      ensures exists i | 0 <= i < |entries| :: IsFirst(entries, i) && entries[i] == e {
      if e in FirstOfEach(init) {
        var i :| 0 <= i < |init| && IsFirst(init, i) && init[i] == e;
        assert IsFirst(entries, i);
      } else {
        assert IsFirst(entries, |init|);
      }
    }
  }

  // ---- the address and the guards of each way in ----

  /** The levels a route passes through along a way: those of the way, and its own application. */
  function RouteLevels(g: Graph, call: RouteCall, w: Way): seq<Level> {
    Levels(g, w) + [Level(OwnerOf(g.dialect, call.receiver), call.site, PathOf(g, w))]
  }

  /** The address of a route along a way: the mounts, outermost first, and its own path. */
  function AddressAlong(g: Graph, w: Way, declared: string): string {
    Rooted(PathOf(g, w) + Segments(declared))
  }

  /** A verb of a route, at one of its paths, along one way its application is reached. */
  function EntryAlong(placer: Placer, call: RouteCall, w: Way, declared: string, verb: string): Entry {
    var g, rawPath := placer.graph, AddressAlong(placer.graph, w, declared);
    Entry(
      placer.idOf(verb, rawPath),
      rawPath,
      AllNamed(Covering(GuardsAt(g, RouteLevels(g, call, w)), rawPath)) + Named(call.middleware, OnRoute),
      call.site)
  }

  lemma ContextAlong(g: Graph, call: RouteCall, w: Way, declared: string)
    ensures RawPathAt(ContextOf(g, w), declared) == AddressAlong(g, w, declared)
    ensures InFront(g, call, ContextOf(g, w)) == GuardsAt(g, RouteLevels(g, call, w))
  {
    var context := ContextOf(g, w);
    ContextReads(g, w);
    JoinPathIsRooted([Some(context.prefix), Some(declared)]);
    AllSegmentsOf(context.prefix, declared, "");
    LevelReads(g, Levels(g, w), OwnerOf(g.dialect, call.receiver), call.site, context.prefix, PathOf(g, w));
  }

  lemma EntriesAlong(placer: Placer, call: RouteCall, w: Way, declared: string, e: Entry)
    ensures e in EntriesAt(placer, call, ContextOf(placer.graph, w), declared)
       <==> exists v | 0 <= v < |call.verbs| :: e == EntryAlong(placer, call, w, declared, call.verbs[v])
  {
    ContextAlong(placer.graph, call, w, declared);
    var entries := EntriesAt(placer, call, ContextOf(placer.graph, w), declared);
    forall v | 0 <= v < |call.verbs| ensures entries[v] == EntryAlong(placer, call, w, declared, call.verbs[v]) {
    }
    if v :| 0 <= v < |call.verbs| && e == EntryAlong(placer, call, w, declared, call.verbs[v]) {
      assert entries[v] == e;
    }
  }

  ghost predicate IsAlong(placer: Placer, call: RouteCall, w: Way, e: Entry) {
    exists p, v | 0 <= p < |call.paths| && 0 <= v < |call.verbs| ::
      e == EntryAlong(placer, call, w, call.paths[p], call.verbs[v])
  }

  lemma AlongContext(placer: Placer, call: RouteCall, w: Way, e: Entry)
    ensures e in InContext(placer, call)(ContextOf(placer.graph, w)) <==> IsAlong(placer, call, w, e)
  {
    var context := ContextOf(placer.graph, w);
    var at := AtContext(placer, call, context);
    FlatMapHolds(call.paths, at, e);
    forall p | 0 <= p < |call.paths|
      ensures e in at(call.paths[p])
         <==> exists v | 0 <= v < |call.verbs| :: e == EntryAlong(placer, call, w, call.paths[p], call.verbs[v])
    {
      EntriesAlong(placer, call, w, call.paths[p], e);
    }
  }

  /** In the contexts of some ways, what is drawn is drawn along one of them. */
  lemma AlongSome(placer: Placer, call: RouteCall, ways: seq<Way>, e: Entry)
    ensures e in FlatMap(ContextsAlong(placer.graph, ways), InContext(placer, call))
       <==> exists w :: w in ways && IsAlong(placer, call, w, e)
  {
    var contexts := ContextsAlong(placer.graph, ways);
    FlatMapHolds(contexts, InContext(placer, call), e);
    forall i | 0 <= i < |ways|
      ensures e in InContext(placer, call)(contexts[i]) <==> IsAlong(placer, call, ways[i], e) {
      AlongContext(placer, call, ways[i], e);
    }
  }

  /**
   * A route call is a way in exactly along every way its application is reached,
   * at each of its paths, for each of its verbs: at the mounts' paths joined
   * outermost first, behind every install written above it and before it that
   * covers the address, outermost first.
   */
  lemma PlacedAlongEveryWay(placer: Placer, call: RouteCall, e: Entry)
    requires ContextsOf(placer.graph, call.receiver, {}).Some?
    ensures e in WaysIn(placer)(call)
       <==> exists w :: IsWay(placer.graph, call.receiver, {}, w) && IsAlong(placer, call, w, e)
  {
    var g := placer.graph;
    var contexts := ContextsOf(g, call.receiver, {}).value;
    var ways := OneContextPerWay(g, call.receiver, {});
    AlongSome(placer, call, ways, e);
    assert WaysIn(placer)(call) == FlatMap(contexts, InContext(placer, call));
  }

  /**
   * An application nothing reaches is placed at the root where no call of the
   * repository moves one, and nowhere otherwise.
   */
  lemma UnreachedIsAtTheRoot(placer: Placer, call: RouteCall)
    requires ContextsOf(placer.graph, call.receiver, {}).None?
    ensures placer.shifts ==> |WaysIn(placer)(call)| == 0
    ensures !placer.shifts ==> forall e :: e in WaysIn(placer)(call) <==> IsAlong(placer, call, Base(""), e)
  {
    if !placer.shifts {
      assert ContextOf(placer.graph, Base("")) == ROOT;
      forall e ensures e in WaysIn(placer)(call) <==> IsAlong(placer, call, Base(""), e) {
        FlatMapHolds([ROOT], InContext(placer, call), e);
        assert [ROOT][0] == ROOT;
        AlongContext(placer, call, Base(""), e);
      }
    }
  }

  // ---- what covers an address ----

  /** Of what stands in front, exactly what covers the address is named, in the same order. */
  lemma {:induction false} CoveringExactly(installs: seq<Install>, rawPath: string)
    ensures forall install ::
            install in Covering(installs, rawPath) <==> install in installs && Covers(install.at, rawPath)
    ensures (forall i | 0 <= i < |installs| :: ScopeOf(installs[i].at).Global?)
            ==> Covering(installs, rawPath) == installs
  {
    if |installs| > 0 {
      CoveringExactly(installs[1..], rawPath);
      assert installs == [installs[0]] + installs[1..];
    }
  }
}
