/**
 * Where an application is served: the mount graph of `call-routes.ts` and the
 * walk up it. The compiler's answers about a node - what it declares, whether it
 * is an application, the string an argument spells - are data on the node; what
 * is modelled is everything done with them.
 */
module Mounts {
  import opened Wrappers
  import opened Paths

  /** A declaration: what an application is named by. */
  type Decl = nat

  datatype Site = Site(file: string, pos: nat)

  /** One install: its site, the path it is scoped to, if any, and what it names. */
  datatype Install = Install(site: Site, at: Option<string>, names: seq<string>, source: string)

  /** One answer of the walk up: a prefix, and the guards passed on the way. */
  datatype RouteContext = RouteContext(prefix: string, guards: seq<Install>)

  const ROOT := RouteContext("", [])

  /** The methods a framework's description names. */
  datatype Dialect = Dialect(
    mountMethod: Option<string>,
    installMethod: Option<string>,
    verbArgument: Option<string>,
    verbs: set<string>,
    prefixMethod: Option<string>,
    prefixMutates: bool,
    installNamed: bool,
    installScoped: bool)
  {
    /** A chained call by one of these methods is the application itself. */
    predicate PassesThrough(called: string) {
      || mountMethod == Some(called)
      || installMethod == Some(called)
      || verbArgument == Some(called)
      || called in verbs
    }
  }

  /**
   * An application expression. `app` says whether it is recognised as an
   * application, `declared` which declaration it names. A call or `new` also
   * knows the declaration its chain was given to (`owner`) and the path its
   * prefix option spells (`base`).
   */
  datatype Expr =
    | Name(declared: Option<Decl>, app: bool)
    | Made(declared: Option<Decl>, app: bool, owner: Option<Decl>, base: Option<string>)
    | Call(receiver: Expr, called: string, at: Option<string>, site: Site,
           declared: Option<Decl>, app: bool, owner: Option<Decl>, base: Option<string>)

  /** One edge of the mount graph; `at` is `None` for a path nobody could read. */
  datatype Mount = Mount(parent: Expr, site: Site, at: Option<string>, through: Option<string>)

  /** Everything the walk reads: what was written, and what was collected about it. */
  datatype Graph = Graph(
    dialect: Dialect,
    values: map<Decl, Expr>,
    mounts: map<Decl, seq<Mount>>,
    installs: map<Decl, seq<Install>>,
    shifted: map<Decl, Option<string>>)
  {
    /** The declarations from which a walk can go on. */
    ghost function Known(): set<Decl> {
      values.Keys + mounts.Keys
    }

    /** How many declarations a walk has still to enter. */
    ghost function Left(seen: set<Decl>): nat {
      |Known() - seen|
    }

    /** Each declaration entered leaves fewer to enter, which is what ends a walk. */
    lemma EnteringShrinks(d: Decl, seen: set<Decl>)
      ensures d in Known() && d !in seen ==> Left(seen + {d}) < Left(seen)
    {
      assert Known() - (seen + {d}) == Known() - seen - {d};
    }
  }

  /** How far a chain of calls is followed back to its application. */
  const CHAIN_DEPTH := 16

  /** Whether a call on an application is still that application. */
  predicate HandsBack(dialect: Dialect, e: Expr)
    requires e.Call?
  {
    dialect.PassesThrough(e.called) || (Some(e.called) != dialect.prefixMethod && e.app)
  }

  /** The name a chain of calls starts from, so many of them further back at most. */
  function AppOwner(dialect: Dialect, e: Expr, depth: nat): Option<Decl>
    decreases depth
  {
    if depth > 0 && e.Call? && HandsBack(dialect, e) then AppOwner(dialect, e.receiver, depth - 1)
    else e.declared
  }

  function OwnerOf(dialect: Dialect, e: Expr): Option<Decl> {
    AppOwner(dialect, e, CHAIN_DEPTH)
  }

  /** An install as it stands under a prefix. */
  function Rebased(install: Install, prefix: string): Install {
    if install.at.None? then install
    else install.(at := Some(JoinPath([Some(prefix), install.at])))
  }

  /** What of a list of installs stands in front of a site, in the order written. */
  function Before(installs: seq<Install>, before: Site, prefix: string): seq<Install> {
    if |installs| == 0 then []
    else
      var first := installs[0];
      (if first.site.file == before.file && first.site.pos < before.pos then [Rebased(first, prefix)] else [])
      + Before(installs[1..], before, prefix)
  }

  function InstallsOf(g: Graph, d: Decl): seq<Install> {
    if d in g.installs then g.installs[d] else []
  }

  /** The installs of a declaration, if there is one, that stand before a site. */
  function GuardsOn(g: Graph, declaration: Option<Decl>, before: Site, prefix: string): seq<Install> {
    if declaration.None? then [] else Before(InstallsOf(g, declaration.value), before, prefix)
  }

  /** A context once a prefix call stands behind it. */
  function Prefixed(g: Graph, e: Expr, at: string, context: RouteContext): RouteContext
    requires e.Call?
  {
    RouteContext(
      JoinPath([Some(context.prefix), Some(at)]),
      context.guards + GuardsOn(g, OwnerOf(g.dialect, e.receiver), e.site, context.prefix))
  }

  function AllPrefixed(g: Graph, e: Expr, at: string, contexts: seq<RouteContext>): (moved: seq<RouteContext>)
    requires e.Call?
    ensures |moved| == |contexts|
    ensures forall i | 0 <= i < |contexts| :: moved[i] == Prefixed(g, e, at, contexts[i])
  {
    seq(|contexts|, i requires 0 <= i < |contexts| => Prefixed(g, e, at, contexts[i]))
  }

  /** A context of an application whose router has a prefix put in front of it. */
  function Shifted(shift: string, context: RouteContext): RouteContext {
    context.(prefix := JoinPath([Some(shift), Some(context.prefix)]))
  }

  function AllShifted(shift: string, contexts: seq<RouteContext>): (moved: seq<RouteContext>)
    ensures |moved| == |contexts|
    ensures forall i | 0 <= i < |contexts| :: moved[i] == Shifted(shift, contexts[i])
  {
    seq(|contexts|, i requires 0 <= i < |contexts| => Shifted(shift, contexts[i]))
  }

  /** One context above a mount with one context below it. */
  function Hung(g: Graph, mount: Mount, at: string, outer: RouteContext, inner: RouteContext): RouteContext {
    RouteContext(
      JoinPath([Some(outer.prefix), Some(at), Some(inner.prefix)]),
      outer.guards + GuardsOn(g, OwnerOf(g.dialect, mount.parent), mount.site, outer.prefix) + inner.guards)
  }

  function AllHungUnder(
      g: Graph, mount: Mount, at: string, outer: RouteContext, inner: seq<RouteContext>): (hung: seq<RouteContext>)
    ensures |hung| == |inner|
    ensures forall i | 0 <= i < |inner| :: hung[i] == Hung(g, mount, at, outer, inner[i])
  {
    seq(|inner|, i requires 0 <= i < |inner| => Hung(g, mount, at, outer, inner[i]))
  }

  /** Every context above a mount crossed with every context below it, outer first. */
  function Crossed(
      g: Graph, mount: Mount, at: string, above: seq<RouteContext>, inner: seq<RouteContext>): seq<RouteContext> {
    if |above| == 0 then []
    else AllHungUnder(g, mount, at, above[0], inner) + Crossed(g, mount, at, above[1..], inner)
  }

  type Contexts = Option<seq<RouteContext>>

  /** Every way an application expression is reached, or nothing when it cannot be told. */
  function ContextsOf(g: Graph, e: Expr, seen: set<Decl>): Contexts
    decreases g.Left(seen), 2, e
  {
    match e
    case Name(declared, _) =>
      if declared.None? then None else OfDeclaration(g, declared.value, seen)
    case Made(_, _, _, _) => MadeHere(g, e, seen)
    case Call(receiver, called, at, _, _, _, _, _) =>
      var inner := if receiver.app then ContextsOf(g, receiver, seen) else None;
      if inner.None? then MadeHere(g, e, seen)
      else if g.dialect.PassesThrough(called) then inner
      else if Some(called) == g.dialect.prefixMethod then
        if at.None? then None else Some(AllPrefixed(g, e, at.value, inner.value))
      else if e.app then inner
      else None
  }

  /** An application made where it is written, or the name its value was given to. */
  function MadeHere(g: Graph, e: Expr, seen: set<Decl>): Contexts
    requires !e.Name?
    decreases g.Left(seen), 1
  {
    if !e.app then None
    else if e.owner.Some? && e.owner.value !in seen then OfDeclaration(g, e.owner.value, seen)
    else Some([ROOT.(prefix := e.base.GetOr(""))])
  }

  /** The answer for a declaration; nothing for one already on the walk down to here. */
  function OfDeclaration(g: Graph, d: Decl, seen: set<Decl>): Contexts
    decreases g.Left(seen), 0
  {
    if d in seen then None
    else
      g.EnteringShrinks(d, seen);
      BasesOf(g, d, seen + {d})
  }

  /** What the value written for a declaration says, with the prefix put in front of it. */
  function OwnOf(g: Graph, d: Decl, seen: set<Decl>): Contexts
    decreases if d in g.Known() then g.Left(seen) else 0, if d in g.Known() then 4 else 0, 0
  {
    var written := if d in g.values then ContextsOf(g, g.values[d], seen) else None;
    if written.Some? && d in g.shifted && g.shifted[d].Some? then
      Some(AllShifted(g.shifted[d].value, written.value))
    else written
  }

  function BasesOf(g: Graph, d: Decl, seen: set<Decl>): Contexts
    decreases if d in g.Known() then g.Left(seen) else 0, if d in g.Known() then 4 else 0, 1
  {
    if d in g.shifted && g.shifted[d].None? then None
    else
      var own := OwnOf(g, d, seen);
      if d !in g.mounts then own else UnderMounts(g, g.mounts[d], own.GetOr([ROOT]), seen)
  }

  /** Every mount of an application crossed with its own bases; nothing if one mount is unread. */
  function UnderMounts(g: Graph, mounts: seq<Mount>, own: seq<RouteContext>, seen: set<Decl>): Contexts
    decreases g.Left(seen), 3, |mounts|
  {
    if |mounts| == 0 then Some([])
    else if mounts[0].at.None? then None
    else
      var above := ContextsOf(g, mounts[0].parent, seen);
      if above.None? then None
      else
        var rest := UnderMounts(g, mounts[1..], own, seen);
        if rest.None? then None
        else Some(Crossed(g, mounts[0], mounts[0].at.value, above.value, own) + rest.value)
  }
}
