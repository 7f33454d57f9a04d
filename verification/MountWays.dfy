/**
 * What the walk up the mount graph answers, said without the walk: one context
 * for each way up, and nothing exactly when something on the way could not be
 * read.
 */
module MountWays {
  import opened Seqs
  import opened Wrappers
  import opened Paths
  import opened Mounts

  // ---- why an address cannot be told ----

  /** What stands in the way of an address, with the declarations passed to get to it. */
  datatype Blame =
    | Unnamed
    | NotAnApp
    | UnreadPrefix
    | Receiver(of: Blame)
    | Repeated(d: Decl)
    | UnreadShift(d: Decl)
    | Unwritten(d: Decl)
    | Value(d: Decl, of: Blame)
    | UnreadMount(d: Decl, index: nat)
    | Above(d: Decl, index: nat, of: Blame)

  /** Everything that keeps the address of an expression from being told. */
  ghost function Blames(g: Graph, e: Expr, seen: set<Decl>): iset<Blame>
    decreases g.Left(seen), 2, e
  {
    match e
    case Name(declared, _) =>
      if declared.None? then iset{Unnamed} else DeclBlames(g, declared.value, seen)
    case Made(_, _, _, _) =>
      if e.app then OwnerBlames(g, e.owner, seen) else iset{NotAnApp}
    case Call(receiver, called, at, _, _, _, _, _) =>
      if receiver.app && Blames(g, receiver, seen) == iset{} then
        if g.dialect.PassesThrough(called) then iset{}
        else if Some(called) == g.dialect.prefixMethod then (if at.None? then iset{UnreadPrefix} else iset{})
        else if e.app then iset{}
        else iset{NotAnApp}
      else if e.app then OwnerBlames(g, e.owner, seen)
      else if receiver.app then iset b | b in Blames(g, receiver, seen) :: Receiver(b)
      else iset{NotAnApp}
  }

  /** What keeps the declaration a made application was given to from being told. */
  ghost function OwnerBlames(g: Graph, owner: Option<Decl>, seen: set<Decl>): iset<Blame>
    decreases g.Left(seen), 1
  {
    if owner.Some? && owner.value !in seen then DeclBlames(g, owner.value, seen) else iset{}
  }

  ghost function DeclBlames(g: Graph, d: Decl, seen: set<Decl>): iset<Blame>
    decreases g.Left(seen), 0
  {
    g.EnteringShrinks(d, seen);
    if d in seen then iset{Repeated(d)}
    else
      iset b: Blame |
        || (b == UnreadShift(d) && d in g.shifted && g.shifted[d].None?)
        || (d in g.mounts && b.UnreadMount? && b.d == d && b.index < |g.mounts[d]| && g.mounts[d][b.index].at.None?)
        || (d in g.mounts && b.Above? && b.d == d && b.index < |g.mounts[d]|
            && b.of in Blames(g, g.mounts[d][b.index].parent, seen + {d}))
        || (d !in g.mounts && b == Unwritten(d) && d !in g.values)
        || (d !in g.mounts && b.Value? && b.d == d && d in g.values && b.of in Blames(g, g.values[d], seen + {d}))
  }

  ghost predicate Blamed(g: Graph, e: Expr, seen: set<Decl>) {
    Blames(g, e, seen) != iset{}
  }

  ghost predicate DeclBlamed(g: Graph, d: Decl, seen: set<Decl>) {
    DeclBlames(g, d, seen) != iset{}
  }

  /** Whether a call is made on an application whose own address is told. */
  ghost predicate OnPlaced(g: Graph, e: Expr, seen: set<Decl>)
    requires e.Call?
  {
    e.receiver.app && !Blamed(g, e.receiver, seen)
  }

  // ---- the ways up ----

  /**
   * One way an application is reached: the mounts passed going up and, at each
   * declaration, the base its own value gives it.
   */
  datatype Way =
    | Base(path: string)
    | Same(inner: Way)
    | Under(inner: Way, at: string, owner: Option<Decl>, site: Site)
    | Top(d: Decl, value: Way)
    | HungAt(d: Decl, index: nat, mount: Mount, at: string, up: Way, own: Option<Way>)

  ghost predicate IsWay(g: Graph, e: Expr, seen: set<Decl>, w: Way)
    decreases g.Left(seen), 2, e, 0
  {
    match e
    case Name(declared, _) => declared.Some? && IsDeclWay(g, declared.value, seen, w)
    case Made(_, _, _, _) => IsMadeWay(g, e, seen, w)
    case Call(receiver, called, at, site, _, app, _, _) =>
      if !OnPlaced(g, e, seen) then IsMadeWay(g, e, seen, w)
      else if !g.dialect.PassesThrough(called) && Some(called) == g.dialect.prefixMethod then
        && w.Under? && at == Some(w.at) && w.owner == OwnerOf(g.dialect, receiver) && w.site == site
        && IsWay(g, receiver, seen, w.inner)
      else
        && (g.dialect.PassesThrough(called) || app)
        && w.Same? && IsWay(g, receiver, seen, w.inner)
  }

  ghost predicate IsMadeWay(g: Graph, e: Expr, seen: set<Decl>, w: Way)
    requires !e.Name?
    decreases g.Left(seen), 1
  {
    && e.app
    && if e.owner.Some? && e.owner.value !in seen then IsDeclWay(g, e.owner.value, seen, w)
       else w == Base(e.base.GetOr(""))
  }

  ghost predicate IsDeclWay(g: Graph, d: Decl, seen: set<Decl>, w: Way)
    decreases g.Left(seen), 0
  {
    g.EnteringShrinks(d, seen);
    && d !in seen
    && !(d in g.shifted && g.shifted[d].None?)
    && if d in g.mounts then IsHungWay(g, d, 0, seen + {d}, w)
       else w.Top? && w.d == d && d in g.values && IsWay(g, g.values[d], seen + {d}, w.value)
  }

  /** A way through one of a declaration's mounts, from a given one on. */
  ghost predicate IsHungWay(g: Graph, d: Decl, from: nat, seen: set<Decl>, w: Way)
    requires d in g.mounts
    decreases g.Left(seen), 4
  {
    && w.HungAt? && w.d == d && from <= w.index < |g.mounts[d]|
    && w.mount == g.mounts[d][w.index] && w.mount.at == Some(w.at)
    && IsWay(g, w.mount.parent, seen, w.up)
    && IsOwnWay(g, d, seen, w.own)
  }

  /** A base a mounted declaration has of its own; none where its value tells none. */
  ghost predicate IsOwnWay(g: Graph, d: Decl, seen: set<Decl>, own: Option<Way>)
    decreases g.Left(seen), 3
  {
    if d in g.values && !Blamed(g, g.values[d], seen) then own.Some? && IsWay(g, g.values[d], seen, own.value)
    else own.None?
  }

  // ---- what a way says ----

  function Moved(g: Graph, d: Decl, context: RouteContext): RouteContext {
    if d in g.shifted && g.shifted[d].Some? then Shifted(g.shifted[d].value, context) else context
  }

  function ContextOf(g: Graph, w: Way): RouteContext {
    match w
    case Base(path) => ROOT.(prefix := path)
    case Same(inner) => ContextOf(g, inner)
    case Under(inner, at, owner, site) =>
      var context := ContextOf(g, inner);
      RouteContext(JoinPath([Some(context.prefix), Some(at)]),
                   context.guards + GuardsOn(g, owner, site, context.prefix))
    case Top(d, value) => Moved(g, d, ContextOf(g, value))
    case HungAt(d, _, mount, at, up, own) =>
      Mounts.Hung(g, mount, at, ContextOf(g, up),
                  if own.Some? then Moved(g, d, ContextOf(g, own.value)) else ROOT)
  }

  function ContextsAlong(g: Graph, ways: seq<Way>): (contexts: seq<RouteContext>)
    ensures |contexts| == |ways|
    ensures forall i | 0 <= i < |ways| :: contexts[i] == ContextOf(g, ways[i])
  {
    seq(|ways|, i requires 0 <= i < |ways| => ContextOf(g, ways[i]))
  }

  /** The ways listed are all the ways there are, each once. */
  ghost predicate AllWays(g: Graph, e: Expr, seen: set<Decl>, ways: seq<Way>) {
    NoRepeats(ways) && forall w :: w in ways <==> IsWay(g, e, seen, w)
  }

  ghost predicate AllDeclWays(g: Graph, d: Decl, seen: set<Decl>, ways: seq<Way>) {
    NoRepeats(ways) && forall w :: w in ways <==> IsDeclWay(g, d, seen, w)
  }

  /**
   * The walk answers nothing exactly when something is to blame, and otherwise
   * one context for each way up: every way, each counted once.
   */
  lemma {:induction false} OneContextPerWay(g: Graph, e: Expr, seen: set<Decl>) returns (ways: seq<Way>)
    ensures ContextsOf(g, e, seen).None? <==> Blamed(g, e, seen)
    ensures ContextsOf(g, e, seen).Some? ==>
              AllWays(g, e, seen, ways) && ContextsOf(g, e, seen).value == ContextsAlong(g, ways)
    decreases g.Left(seen), 2, e
  {
    ways := [];
    match e
    case Name(declared, _) =>
      if declared.None? {
        assert Unnamed in Blames(g, e, seen);
      } else {
        ways := OneContextPerDeclWay(g, declared.value, seen);
      }
    case Made(_, _, _, _) =>
      ways := OneContextPerMadeWay(g, e, seen);
    case Call(receiver, called, at, site, _, app, _, _) =>
      var inner := OneContextPerWay(g, receiver, seen);
      assert OnPlaced(g, e, seen) <==> receiver.app && ContextsOf(g, receiver, seen).Some?;
      if !OnPlaced(g, e, seen) {
        ways := OneContextPerMadeWay(g, e, seen);
      } else if g.dialect.PassesThrough(called) {
        ways := SameWays(inner);
        assert ContextsOf(g, e, seen).value == ContextsAlong(g, ways);
      } else if Some(called) == g.dialect.prefixMethod {
        if at.None? {
          assert UnreadPrefix in Blames(g, e, seen);
        } else {
          ways := UnderWays(inner, at.value, OwnerOf(g.dialect, receiver), site);
          assert ContextsOf(g, e, seen).value == ContextsAlong(g, ways);
        }
      } else if app {
        ways := SameWays(inner);
        assert ContextsOf(g, e, seen).value == ContextsAlong(g, ways);
      } else {
        assert NotAnApp in Blames(g, e, seen);
      }
  }

  function SameWays(inner: seq<Way>): (ways: seq<Way>)
    ensures |ways| == |inner|
    ensures forall i | 0 <= i < |inner| :: ways[i] == Same(inner[i])
    ensures forall w :: w in ways <==> w.Same? && w.inner in inner
  {
    var ways := seq(|inner|, i requires 0 <= i < |inner| => Same(inner[i]));
    assert forall i | 0 <= i < |inner| :: ways[i] == Same(inner[i]);
    ways
  }

  function UnderWays(inner: seq<Way>, at: string, owner: Option<Decl>, site: Site): (ways: seq<Way>)
    ensures |ways| == |inner|
    ensures forall i | 0 <= i < |inner| :: ways[i] == Under(inner[i], at, owner, site)
    ensures forall w :: w in ways <==> w.Under? && w.at == at && w.owner == owner && w.site == site && w.inner in inner
  {
    var ways := seq(|inner|, i requires 0 <= i < |inner| => Under(inner[i], at, owner, site));
    assert forall i | 0 <= i < |inner| :: ways[i] == Under(inner[i], at, owner, site);
    ways
  }

  lemma {:induction false} OneContextPerMadeWay(g: Graph, e: Expr, seen: set<Decl>) returns (ways: seq<Way>)
    requires !e.Name?
    requires e.Call? ==> (!OnPlaced(g, e, seen) && (e.receiver.app ==> ContextsOf(g, e.receiver, seen).None?))
    ensures ContextsOf(g, e, seen).None? <==> Blamed(g, e, seen)
    ensures ContextsOf(g, e, seen).Some? ==>
              AllWays(g, e, seen, ways) && ContextsOf(g, e, seen).value == ContextsAlong(g, ways)
    decreases g.Left(seen), 1
  {
    ways := [];
    if !e.app {
      if e.Call? && e.receiver.app {
        var b :| b in Blames(g, e.receiver, seen);
        assert Receiver(b) in Blames(g, e, seen);
      } else {
        assert NotAnApp in Blames(g, e, seen);
      }
    } else if e.owner.Some? && e.owner.value !in seen {
      ways := OneContextPerDeclWay(g, e.owner.value, seen);
      assert Blames(g, e, seen) == OwnerBlames(g, e.owner, seen) == DeclBlames(g, e.owner.value, seen);
    } else {
      assert Blames(g, e, seen) == OwnerBlames(g, e.owner, seen);
      ways := [Base(e.base.GetOr(""))];
    }
  }

  lemma {:induction false} OneContextPerDeclWay(g: Graph, d: Decl, seen: set<Decl>) returns (ways: seq<Way>)
    ensures OfDeclaration(g, d, seen).None? <==> DeclBlamed(g, d, seen)
    ensures OfDeclaration(g, d, seen).Some? ==>
              AllDeclWays(g, d, seen, ways) && OfDeclaration(g, d, seen).value == ContextsAlong(g, ways)
    decreases g.Left(seen), 0
  {
    ways := [];
    g.EnteringShrinks(d, seen);
    if d in seen {
      assert Repeated(d) in DeclBlames(g, d, seen);
    } else if d in g.shifted && g.shifted[d].None? {
      assert UnreadShift(d) in DeclBlames(g, d, seen);
    } else if d in g.mounts {
      ways := OneContextPerHungWay(g, d, seen + {d});
      BlameOfMounted(g, d, seen);
    } else if d in g.values {
      ways := OneContextPerTopWay(g, d, seen);
    } else {
      assert OwnOf(g, d, seen + {d}).None?;
      assert Unwritten(d) in DeclBlames(g, d, seen);
    }
  }

  lemma {:induction false} OneContextPerTopWay(g: Graph, d: Decl, seen: set<Decl>) returns (ways: seq<Way>)
    requires d !in seen && !(d in g.shifted && g.shifted[d].None?)
    requires d !in g.mounts && d in g.values && g.Left(seen + {d}) < g.Left(seen)
    ensures OfDeclaration(g, d, seen).None? <==> DeclBlamed(g, d, seen)
    ensures OfDeclaration(g, d, seen).Some? ==>
              AllDeclWays(g, d, seen, ways) && OfDeclaration(g, d, seen).value == ContextsAlong(g, ways)
    decreases g.Left(seen + {d}), 5
  {
    var entered := seen + {d};
    var inner := OneContextPerWay(g, g.values[d], entered);
    BlameOfUnmounted(g, d, seen);
    ways := TopWays(d, inner);
    UnmountedIsOwn(g, d, seen);
    if ContextsOf(g, g.values[d], entered).Some? {
      OwnAlongTop(g, d, entered, inner);
      forall w ensures w in ways <==> IsDeclWay(g, d, seen, w) {
        UnmountedWay(g, d, seen, w);
      }
    }
  }

  /** A declaration mounted nowhere is reached where its own value says. */
  lemma UnmountedIsOwn(g: Graph, d: Decl, seen: set<Decl>)
    requires d !in seen && !(d in g.shifted && g.shifted[d].None?)
    requires d !in g.mounts && d in g.values
    ensures OfDeclaration(g, d, seen) == OwnOf(g, d, seen + {d})
    ensures OfDeclaration(g, d, seen).None? <==> ContextsOf(g, g.values[d], seen + {d}).None?
  {
  }

  lemma UnmountedWay(g: Graph, d: Decl, seen: set<Decl>, w: Way)
    requires d !in seen && !(d in g.shifted && g.shifted[d].None?)
    requires d !in g.mounts && d in g.values
    ensures IsDeclWay(g, d, seen, w) <==> w.Top? && w.d == d && IsWay(g, g.values[d], seen + {d}, w.value)
  {
  }

  lemma OwnAlongTop(g: Graph, d: Decl, seen: set<Decl>, inner: seq<Way>)
    requires d in g.values && ContextsOf(g, g.values[d], seen) == Some(ContextsAlong(g, inner))
    requires !(d in g.shifted && g.shifted[d].None?)
    ensures OwnOf(g, d, seen) == Some(ContextsAlong(g, TopWays(d, inner)))
  {
    assert OwnOf(g, d, seen).value == ContextsAlong(g, TopWays(d, inner));
  }

  function TopWays(d: Decl, inner: seq<Way>): (ways: seq<Way>)
    ensures |ways| == |inner|
    ensures forall i | 0 <= i < |inner| :: ways[i] == Top(d, inner[i])
    ensures forall w :: w in ways <==> w.Top? && w.d == d && w.value in inner
  {
    var ways := seq(|inner|, i requires 0 <= i < |inner| => Top(d, inner[i]));
    assert forall i | 0 <= i < |inner| :: ways[i] == Top(d, inner[i]);
    ways
  }

  /** What a mounted declaration is reached at below one mount: its own base, or the bare root. */
  function OwnContext(g: Graph, d: Decl, own: Option<Way>): RouteContext {
    if own.Some? then Moved(g, d, ContextOf(g, own.value)) else ROOT
  }

  function OwnContexts(g: Graph, d: Decl, owns: seq<Option<Way>>): (contexts: seq<RouteContext>)
    ensures |contexts| == |owns|
    ensures forall i | 0 <= i < |owns| :: contexts[i] == OwnContext(g, d, owns[i])
  {
    seq(|owns|, i requires 0 <= i < |owns| => OwnContext(g, d, owns[i]))
  }

  lemma {:induction false} OneContextPerOwnWay(g: Graph, d: Decl, seen: set<Decl>) returns (owns: seq<Option<Way>>)
    requires d in g.mounts
    ensures NoRepeats(owns) && forall own :: own in owns <==> IsOwnWay(g, d, seen, own)
    ensures OwnOf(g, d, seen).GetOr([ROOT]) == OwnContexts(g, d, owns)
    decreases g.Left(seen), 3
  {
    owns := [None];
    if d in g.values {
      var inner := OneContextPerWay(g, g.values[d], seen);
      if ContextsOf(g, g.values[d], seen).Some? {
        owns := seq(|inner|, i requires 0 <= i < |inner| => Some(inner[i]));
        forall own ensures own in owns <==> own.Some? && own.value in inner {
          if own.Some? && own.value in inner {
            var i :| 0 <= i < |inner| && inner[i] == own.value;
            assert owns[i] == own;
          }
        }
      }
    }
    assert OwnOf(g, d, seen).GetOr([ROOT]) == OwnContexts(g, d, owns);
  }

  /** One way for each pair of a way above a mount and a base below it. */
  function PairedWays(
      d: Decl, index: nat, mount: Mount, at: string, ups: seq<Way>, owns: seq<Option<Way>>): (ways: seq<Way>)
    ensures forall w :: w in ways <==>
              w.HungAt? && w.d == d && w.index == index && w.mount == mount && w.at == at && w.up in ups
                  && w.own in owns
  {
    if |ups| == 0 then []
    else PairedUnder(d, index, mount, at, ups[0], owns) + PairedWays(d, index, mount, at, ups[1..], owns)
  }

  function PairedUnder(d: Decl, index: nat, mount: Mount, at: string, up: Way, owns: seq<Option<Way>>): (ways: seq<Way>)
    ensures |ways| == |owns|
    ensures forall i | 0 <= i < |owns| :: ways[i] == HungAt(d, index, mount, at, up, owns[i])
    ensures forall w :: w in ways <==>
              w.HungAt? && w.d == d && w.index == index && w.mount == mount && w.at == at && w.up == up && w.own in owns
  {
    var ways := seq(|owns|, i requires 0 <= i < |owns| => HungAt(d, index, mount, at, up, owns[i]));
    assert forall i | 0 <= i < |owns| :: ways[i] == HungAt(d, index, mount, at, up, owns[i]);
    ways
  }

  lemma HungUnderAlong(g: Graph, d: Decl, index: nat, mount: Mount, at: string, up: Way, owns: seq<Option<Way>>)
    ensures AllHungUnder(g, mount, at, ContextOf(g, up), OwnContexts(g, d, owns))
         == ContextsAlong(g, PairedUnder(d, index, mount, at, up, owns))
  {
  }

  lemma ContextsAlongConcat(g: Graph, a: seq<Way>, b: seq<Way>)
    ensures ContextsAlong(g, a + b) == ContextsAlong(g, a) + ContextsAlong(g, b)
  {
  }

  lemma {:induction false} PairedWaysCross(
      g: Graph, d: Decl, index: nat, mount: Mount, at: string, ups: seq<Way>, owns: seq<Option<Way>>)
    requires NoRepeats(ups) && NoRepeats(owns)
    ensures NoRepeats(PairedWays(d, index, mount, at, ups, owns))
    ensures Crossed(g, mount, at, ContextsAlong(g, ups), OwnContexts(g, d, owns))
         == ContextsAlong(g, PairedWays(d, index, mount, at, ups, owns))
  {
    if |ups| > 0 {
      PairedWaysCross(g, d, index, mount, at, ups[1..], owns);
      var first := PairedUnder(d, index, mount, at, ups[0], owns);
      var rest := PairedWays(d, index, mount, at, ups[1..], owns);
      assert ContextsAlong(g, ups)[1..] == ContextsAlong(g, ups[1..]);
      HungUnderAlong(g, d, index, mount, at, ups[0], owns);
      ContextsAlongConcat(g, first, rest);
      assert ups[0] !in ups[1..];
      NoRepeatsConcat(first, rest);
    }
  }

  /** Whether one of a declaration's mounts, from a given one on, is unread or hangs from something unread. */
  ghost predicate UnreadFrom(g: Graph, d: Decl, from: nat, seen: set<Decl>)
    requires d in g.mounts
  {
    exists i | from <= i < |g.mounts[d]| :: UnreadAt(g, d, i, seen)
  }

  ghost predicate UnreadAt(g: Graph, d: Decl, i: nat, seen: set<Decl>)
    requires d in g.mounts && i < |g.mounts[d]|
  {
    g.mounts[d][i].at.None? || Blamed(g, g.mounts[d][i].parent, seen)
  }

  /**
   * An answer that is nothing when a mount from a given one on is unread, and
   * else one context for each way through them.
   */
  ghost predicate AnswersHungWays(g: Graph, d: Decl, from: nat, seen: set<Decl>, answer: Contexts, ways: seq<Way>)
    requires d in g.mounts
  {
    if UnreadFrom(g, d, from, seen) then answer.None?
    else
      && NoRepeats(ways) && (forall w :: w in ways <==> IsHungWay(g, d, from, seen, w))
      && answer == Some(ContextsAlong(g, ways))
  }

  lemma {:induction false} OneContextPerHungWay(g: Graph, d: Decl, seen: set<Decl>) returns (ways: seq<Way>)
    requires d in g.mounts
    ensures AnswersHungWays(g, d, 0, seen, UnderMounts(g, g.mounts[d], OwnOf(g, d, seen).GetOr([ROOT]), seen), ways)
    decreases g.Left(seen), 5
  {
    var owns := OneContextPerOwnWay(g, d, seen);
    ways := HungWaysFrom(g, d, 0, seen, owns);
    assert g.mounts[d][0..] == g.mounts[d];
  }

  lemma {:induction false} HungWaysFrom(g: Graph, d: Decl, from: nat, seen: set<Decl>, owns: seq<Option<Way>>)
    returns (ways: seq<Way>)
    requires d in g.mounts && from <= |g.mounts[d]|
    requires NoRepeats(owns) && forall own :: own in owns <==> IsOwnWay(g, d, seen, own)
    ensures AnswersHungWays(g, d, from, seen, UnderMounts(g, g.mounts[d][from..], OwnContexts(g, d, owns), seen), ways)
    decreases g.Left(seen), 4, |g.mounts[d]| - from
  {
    ways := [];
    if from < |g.mounts[d]| {
      var rest := HungWaysFrom(g, d, from + 1, seen, owns);
      var ups := OneContextPerWay(g, g.mounts[d][from].parent, seen);
      ways := HungWaysStep(g, d, from, seen, owns, ups, rest);
    }
  }

  /** The ways through one mount put in front of those through the later ones. */
  lemma {:induction false} HungWaysStep(g: Graph, d: Decl, from: nat, seen: set<Decl>,
                                        owns: seq<Option<Way>>, ups: seq<Way>, rest: seq<Way>)
    returns (ways: seq<Way>)
    requires d in g.mounts && from < |g.mounts[d]|
    requires NoRepeats(owns) && forall own :: own in owns <==> IsOwnWay(g, d, seen, own)
    requires AnswersHungWays(g, d, from + 1, seen,
             UnderMounts(g, g.mounts[d][from + 1..], OwnContexts(g, d, owns), seen), rest)
    requires ContextsOf(g, g.mounts[d][from].parent, seen).None? <==> Blamed(g, g.mounts[d][from].parent, seen)
    requires ContextsOf(g, g.mounts[d][from].parent, seen).Some? ==>
               && AllWays(g, g.mounts[d][from].parent, seen, ups)
               && ContextsOf(g, g.mounts[d][from].parent, seen).value == ContextsAlong(g, ups)
    ensures AnswersHungWays(g, d, from, seen, UnderMounts(g, g.mounts[d][from..], OwnContexts(g, d, owns), seen), ways)
  {
    var mount := g.mounts[d][from];
    ways := [];
    UnreadFromNext(g, d, from, seen);
    assert g.mounts[d][from..][0] == mount && g.mounts[d][from..][1..] == g.mounts[d][from + 1..];
    if !UnreadFrom(g, d, from, seen) {
      var here := PairedWays(d, from, mount, mount.at.value, ups, owns);
      PairedWaysCross(g, d, from, mount, mount.at.value, ups, owns);
      HungWaysSplit(g, d, from, seen, owns, ups);
      NoRepeatsConcat(here, rest);
      ways := here + rest;
      ContextsAlongConcat(g, here, rest);
    }
  }

  lemma UnreadFromNext(g: Graph, d: Decl, from: nat, seen: set<Decl>)
    requires d in g.mounts && from < |g.mounts[d]|
    ensures UnreadFrom(g, d, from, seen) <==> UnreadAt(g, d, from, seen) || UnreadFrom(g, d, from + 1, seen)
  {
  }

  /** The ways through the mounts from one on are those through it and those through later ones. */
  lemma HungWaysSplit(g: Graph, d: Decl, from: nat, seen: set<Decl>, owns: seq<Option<Way>>, ups: seq<Way>)
    requires d in g.mounts && from < |g.mounts[d]|
    requires forall own :: own in owns <==> IsOwnWay(g, d, seen, own)
    requires var mount := g.mounts[d][from]; mount.at.Some? && forall w :: w in ups <==> IsWay(g, mount.parent, seen, w)
    ensures forall w :: IsHungWay(g, d, from, seen, w) <==>
              || w in PairedWays(d, from, g.mounts[d][from], g.mounts[d][from].at.value, ups, owns)
              || IsHungWay(g, d, from + 1, seen, w)
  {
  }

  lemma BlameOfUnmounted(g: Graph, d: Decl, seen: set<Decl>)
    requires d !in g.mounts && d in g.values && d !in seen && !(d in g.shifted && g.shifted[d].None?)
    ensures DeclBlamed(g, d, seen) <==> Blamed(g, g.values[d], seen + {d})
  {
    var entered := seen + {d};
    if DeclBlamed(g, d, seen) {
      var b :| b in DeclBlames(g, d, seen);
      assert b.of in Blames(g, g.values[d], entered);
    }
    if Blamed(g, g.values[d], entered) {
      var b :| b in Blames(g, g.values[d], entered);
      assert Value(d, b) in DeclBlames(g, d, seen);
    }
  }

  lemma BlameOfMounted(g: Graph, d: Decl, seen: set<Decl>)
    requires d in g.mounts && d !in seen && !(d in g.shifted && g.shifted[d].None?)
    ensures DeclBlamed(g, d, seen) <==> UnreadFrom(g, d, 0, seen + {d})
  {
    var entered := seen + {d};
    if b :| b in DeclBlames(g, d, seen) {
      assert UnreadAt(g, d, b.index, entered);
    }
    if UnreadFrom(g, d, 0, entered) {
      var i :| 0 <= i < |g.mounts[d]| && UnreadAt(g, d, i, entered);
      if g.mounts[d][i].at.None? {
        assert UnreadMount(d, i) in DeclBlames(g, d, seen);
      } else {
        var b :| b in Blames(g, g.mounts[d][i].parent, entered);
        assert Above(d, i, b) in DeclBlames(g, d, seen);
      }
    }
  }
}
