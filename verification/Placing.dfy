/**
 * Every route call placed at each address its application is reached at (the
 * placing loop of `extractEntries` in `call-routes.ts`).
 */
module Placing {
  import opened Wrappers
  import opened Seqs
  import opened Paths
  import opened Mounts
  import opened ApplicationState

  /** A route declared on an application: its paths, verbs and the middleware it names itself. */
  datatype RouteCall = RouteCall(receiver: Expr, site: Site, paths: seq<string>, verbs: seq<string>,
      middleware: seq<string>)

  datatype Width = Everywhere | UnderPrefix | OnRoute

  /** One thing standing in front of a route, in the order it runs. */
  datatype Wrapping = Wrapping(name: string, width: Width)

  datatype Entry = Entry(id: string, rawPath: string, wrapping: seq<Wrapping>, site: Site)

  /** How a verb and a path make an id. */
  type IdOf = (string, string) -> string

  /** What placing reads: the graph collected, whether anything moves an application, and how ids are made. */
  datatype Placer = Placer(graph: Graph, shifts: bool, idOf: IdOf)

  // ---- where a call is placed ----

  /** The contexts drawn: those found, or the bare root where none is found and no call moves anything. */
  function PlacesOf(placer: Placer, found: Contexts): Contexts {
    if found.None? && !placer.shifts then Some([ROOT]) else found
  }

  function ContextsFor(placer: Placer, call: RouteCall): Contexts {
    PlacesOf(placer, ContextsOf(placer.graph, call.receiver, {}))
  }

  /** The installs that cover an address, in the order they run. */
  function Covering(installs: seq<Install>, rawPath: string): seq<Install> {
    if |installs| == 0 then []
    else (if Covers(installs[0].at, rawPath) then [installs[0]] else []) + Covering(installs[1..], rawPath)
  }

  function WidthOf(install: Install): Width {
    if ScopeOf(install.at).Global? then Everywhere else UnderPrefix
  }

  function Named(names: seq<string>, width: Width): seq<Wrapping> {
    seq(|names|, i requires 0 <= i < |names| => Wrapping(names[i], width))
  }

  function AllNamed(installs: seq<Install>): seq<Wrapping> {
    if |installs| == 0 then [] else Named(installs[0].names, WidthOf(installs[0])) + AllNamed(installs[1..])
  }

  /**
   * What stands in front of a call where its application is reached: all from
   * above, its own installs so far, and what it names.
   */
  function InFront(g: Graph, call: RouteCall, context: RouteContext): seq<Install> {
    context.guards + GuardsOn(g, OwnerOf(g.dialect, call.receiver), call.site, context.prefix)
  }

  function RawPathAt(context: RouteContext, declared: string): string {
    JoinPath([Some(context.prefix), Some(declared)])
  }

  function WrappingAt(g: Graph, call: RouteCall, context: RouteContext, rawPath: string): seq<Wrapping> {
    AllNamed(Covering(InFront(g, call, context), rawPath)) + Named(call.middleware, OnRoute)
  }

  /** One entry for each verb at one address. */
  function EntriesAt(placer: Placer, call: RouteCall, context: RouteContext, declared: string): seq<Entry> {
    var rawPath := RawPathAt(context, declared);
    var wrapping := WrappingAt(placer.graph, call, context, rawPath);
    seq(|call.verbs|, i requires 0 <= i < |call.verbs| => Entry(placer.idOf(call.verbs[i], rawPath), rawPath, wrapping,
        call.site))
  }

  function AtContext(placer: Placer, call: RouteCall, context: RouteContext): string -> seq<Entry> {
    (declared: string) => EntriesAt(placer, call, context, declared)
  }

  function InContext(placer: Placer, call: RouteCall): RouteContext -> seq<Entry> {
    (context: RouteContext) => FlatMap(call.paths, AtContext(placer, call, context))
  }

  /** Every way in a call is: each verb, at each of its paths, in each context. */
  function WaysIn(placer: Placer): RouteCall -> seq<Entry> {
    (call: RouteCall) =>
      var contexts := ContextsFor(placer, call);
      if contexts.None? then [] else FlatMap(contexts.value, InContext(placer, call))
  }

  // ---- one entry an id ----

  function Ids(entries: seq<Entry>): set<string> {
    set i | 0 <= i < |entries| :: entries[i].id
  }

  /** The first of every id. */
  function FirstOfEach(entries: seq<Entry>): seq<Entry> {
    if |entries| == 0 then []
    else
      var before, last := FirstOfEach(entries[..|entries| - 1]), entries[|entries| - 1];
      if last.id in Ids(entries[..|entries| - 1]) then before else before + [last]
  }

  lemma FirstMore(entries: seq<Entry>, last: Entry)
    ensures FirstOfEach(entries + [last])
         == if last.id in Ids(entries) then FirstOfEach(entries) else FirstOfEach(entries) + [last]
    ensures Ids(entries + [last]) == Ids(entries) + {last.id}
  {
    var more := entries + [last];
    assert more[..|entries|] == entries;
    forall id | id in Ids(entries) ensures id in Ids(more) {
      var i :| 0 <= i < |entries| && entries[i].id == id;
      assert more[i] == entries[i];
    }
    assert more[|entries|] == last;
  }

  // ---- the loop ----

  class Placed {
    var entries: seq<Entry>
    var seen: set<string>
    ghost var all: seq<Entry>

    ghost predicate Valid()
      reads this
    {
      entries == FirstOfEach(all) && seen == Ids(all)
    }

    constructor ()
      ensures Valid() && all == []
    {
      entries, seen, all := [], {}, [];
    }

    /** One more way in, unless its id is drawn already. */
    method Add(entry: Entry)
      requires Valid()
      modifies this
      ensures Valid() && all == old(all) + [entry]
    {
      FirstMore(all, entry);
      all := all + [entry];
      if entry.id in seen {
        return;
      }
      seen := seen + {entry.id};
      entries := entries + [entry];
    }

    method PlaceAt(placer: Placer, call: RouteCall, context: RouteContext, declared: string)
      requires Valid()
      modifies this
      ensures Valid() && all == old(all) + EntriesAt(placer, call, context, declared)
    {
      var rawPath := RawPathAt(context, declared);
      var wrapping := WrappingAt(placer.graph, call, context, rawPath);
      ghost var ways := EntriesAt(placer, call, context, declared);
      for i := 0 to |call.verbs|
        invariant Valid() && all == old(all) + ways[..i]
      {
        TakeMore(ways, i);
        Associates(old(all), ways[..i], [ways[i]]);
        Add(Entry(placer.idOf(call.verbs[i], rawPath), rawPath, wrapping, call.site));
      }
      assert ways[..|ways|] == ways;
    }

    method PlaceIn(placer: Placer, call: RouteCall, context: RouteContext)
      requires Valid()
      modifies this
      ensures Valid() && all == old(all) + InContext(placer, call)(context)
    {
      for i := 0 to |call.paths|
        invariant Valid() && all == old(all) + FlatMap(call.paths[..i], AtContext(placer, call, context))
      {
        FlatMapMore(call.paths, AtContext(placer, call, context), i);
        Associates(old(all), FlatMap(call.paths[..i], AtContext(placer, call, context)),
            EntriesAt(placer, call, context, call.paths[i]));
        PlaceAt(placer, call, context, call.paths[i]);
      }
      assert call.paths[..|call.paths|] == call.paths;
    }

    method PlaceAll(placer: Placer, call: RouteCall, contexts: seq<RouteContext>)
      requires Valid()
      modifies this
      ensures Valid() && all == old(all) + FlatMap(contexts, InContext(placer, call))
    {
      for i := 0 to |contexts|
        invariant Valid() && all == old(all) + FlatMap(contexts[..i], InContext(placer, call))
      {
        FlatMapMore(contexts, InContext(placer, call), i);
        Associates(old(all), FlatMap(contexts[..i], InContext(placer, call)), InContext(placer, call)(contexts[i]));
        PlaceIn(placer, call, contexts[i]);
      }
      assert contexts[..|contexts|] == contexts;
    }
  }

  /** The calls whose application is reached nowhere that can be told. */
  function Unplaced(placer: Placer, calls: seq<RouteCall>): seq<RouteCall> {
    if |calls| == 0 then []
    else
      var before, last := Unplaced(placer, calls[..|calls| - 1]), calls[|calls| - 1];
      if ContextsFor(placer, last).None? then before + [last] else before
  }

  /** Every route call of a repository, placed where its application is reached or said not to be. */
  method PlaceRoutes(applications: Applications, idOf: IdOf, calls: seq<RouteCall>)
    returns (entries: seq<Entry>, unplaced: seq<RouteCall>)
    ensures entries == FirstOfEach(FlatMap(calls, WaysIn(Placer(applications.Graph(), applications.shifts, idOf))))
    ensures unplaced == Unplaced(Placer(applications.Graph(), applications.shifts, idOf), calls)
  {
    var graph := Graph(
      applications.dialect, applications.values, applications.mounts, applications.installs, applications.shifted);
    var placer := Placer(graph, applications.shifts, idOf);
    var placed := new Placed();
    unplaced := [];
    for i := 0 to |calls|
      invariant placed.Valid() && fresh(placed)
      invariant placed.all == FlatMap(calls[..i], WaysIn(placer))
      invariant unplaced == Unplaced(placer, calls[..i])
    {
      TakeMore(calls, i);
      var seen := new SeenSet();
      var found := applications.ContextsOf(calls[i].receiver, seen);
      var contexts := PlacesOf(placer, found);
      if contexts.None? {
        ConcatEmpty(placed.all, []);
        unplaced := unplaced + [calls[i]];
        continue;
      }
      placed.PlaceAll(placer, calls[i], contexts.value);
    }
    assert calls[..|calls|] == calls;
    entries := placed.entries;
  }
}
