/**
 * The collected applications of one dialect: the class whose maps every call
 * fills in and whose walk shares one set between all its levels. Each method is
 * proved against the functions of `Collecting`, `Mounts` and `HelperSearch`.
 */
module ApplicationState {
  import opened Wrappers
  import opened Seqs
  import opened Paths
  import opened Mounts
  import opened Collecting
  import HelperSearch

  /** The walk down to here: one set, added to going up and taken back coming down. */
  class SeenSet {
    var elems: set<Decl>

    constructor ()
      ensures elems == {}
    {
      elems := {};
    }
  }

  class Applications {
    const dialect: Dialect
    /** The value written for each declaration, and what a binding without one is assigned. */
    const values: map<Decl, Expr>
    const bound: map<Decl, seq<Decl>>
    var mounts: map<Decl, seq<Mount>>
    var installs: map<Decl, seq<Install>>
    var shifted: map<Decl, Option<string>>
    var unread: map<(string, string), UnreadRegistry>
    var shifts: bool

    constructor (dialect: Dialect, values: map<Decl, Expr>, bound: map<Decl, seq<Decl>>)
      ensures this.dialect == dialect && this.values == values && this.bound == bound
      ensures State() == NOTHING
    {
      this.dialect, this.values, this.bound := dialect, values, bound;
      mounts, installs, shifted, unread, shifts := map[], map[], map[], map[], false;
    }

    ghost function State(): Collected
      reads this
    {
      Collected(mounts, installs, shifted, unread, shifts)
    }

    ghost function Graph(): Graph
      reads this
    {
      Mounts.Graph(dialect, values, mounts, installs, shifted)
    }

    // ---- collecting ----

    method Collect(call: AppCall)
      modifies this
      ensures State() == Recorded(dialect, bound, old(State()), call)
    {
      if Some(call.called) == dialect.prefixMethod {
        shifts := true;
        if dialect.prefixMutates && call.receiver.declared.Some? {
          shifted := shifted[call.receiver.declared.value := call.firstString];
        }
        return;
      }
      var hung := CollectMount(call);
      if hung {
        return;
      }
      CollectInstall(call);
    }

    /** The in-place form of `MountRecorded`; the result says whether the call is over as a mount. */
    method CollectMount(call: AppCall) returns (hung: bool)
      modifies this
      ensures (State(), hung) == MountRecorded(dialect, bound, old(State()), call)
    {
      if Some(call.called) != dialect.mountMethod {
        return false;
      }
      if call.registry.Some? {
        shifts := true;
        var found := MembersOnce(call.registry.value.members);
        if |found| == 0 {
          var name, through := call.registry.value.name, call.receiverText + "." + call.called;
          unread := unread[(name, through) := UnreadRegistry(name, through, call.site, call.mountPath)];
          return true;
        }
        HangAll(found, Mount(call.receiver, call.site, call.mountPath, None));
        return true;
      }
      var declaration := if call.mounted.Some? then call.mounted
                         else if call.helper.Some? then Some(call.helper.value.declaration)
                         else None;
      if declaration.None? {
        if dialect.installMethod != dialect.mountMethod || call.writtenIsApp {
          shifts := true;
        }
        return false;
      }
      shifts := true;
      var throughHelper := call.mounted.None?;
      var at := if throughHelper then call.helper.value.at else call.mountPath;
      var through := if at.None? && throughHelper then Some(call.writtenText) else None;
      HangAll([declaration.value] + Listed(bound, declaration.value), Mount(call.receiver, call.site, at, through));
      return true;
    }

    method MembersOnce(members: seq<Decl>) returns (found: seq<Decl>)
      ensures found == Distinct(members, [])
    {
      found := [];
      for i := 0 to |members|
        invariant Distinct(members[i..], found) == Distinct(members, [])
      {
        assert members[i..][1..] == members[i + 1..];
        if members[i] !in found {
          found := found + [members[i]];
        }
      }
    }

    method HangAll(targets: seq<Decl>, mount: Mount)
      modifies this`mounts
      ensures mounts == Hang(old(mounts), targets, mount)
    {
      for i := 0 to |targets|
        invariant Hang(mounts, targets[i..], mount) == Hang(old(mounts), targets, mount)
      {
        assert targets[i..][1..] == targets[i + 1..];
        var found := Listed(mounts, targets[i]);
        mounts := mounts[targets[i] := found + [mount]];
      }
    }

    method CollectInstall(call: AppCall)
      modifies this`installs
      ensures State() == InstallRecorded(dialect, old(State()), call)
    {
      if Some(call.called) != dialect.installMethod {
        return;
      }
      var scoped := !dialect.installNamed && dialect.installScoped && |call.arguments| > 0 && call.firstIsPath;
      var rest := if (dialect.installNamed || scoped) && |call.arguments| > 0 then call.arguments[1..]
        else call.arguments;
      if |rest| == 0 || call.receiver.declared.None? {
        return;
      }
      var d := call.receiver.declared.value;
      var at := if scoped then call.firstString else None;
      var found := Listed(installs, d);
      installs := installs[d := found + [Install(call.site, at, rest, call.receiverText + "." + call.called)]];
    }

    // ---- reading ----

    method AppOwner(e: Expr) returns (owner: Option<Decl>)
      ensures owner == OwnerOf(dialect, e)
    {
      var at := e;
      var depth := 0;
      while depth < CHAIN_DEPTH
        invariant 0 <= depth <= CHAIN_DEPTH
        invariant Mounts.AppOwner(dialect, at, CHAIN_DEPTH - depth) == OwnerOf(dialect, e)
      {
        if !at.Call? {
          break;
        }
        var through := dialect.PassesThrough(at.called) || (Some(at.called) != dialect.prefixMethod && at.app);
        if !through {
          break;
        }
        at := at.receiver;
        depth := depth + 1;
      }
      owner := at.declared;
    }

    method GuardsOn(declaration: Option<Decl>, before: Site, prefix: string) returns (guards: seq<Install>)
      ensures guards == Mounts.GuardsOn(Graph(), declaration, before, prefix)
    {
      if declaration.None? || declaration.value !in installs {
        return [];
      }
      guards := Before(installs[declaration.value], before, prefix);
    }

    /**
     * Every way an application is reached. The set of declarations on the walk is
     * shared with every level below, and each exit leaves it as it was on entry.
     */
    method ContextsOf(e: Expr, seen: SeenSet) returns (contexts: Contexts)
      modifies seen
      ensures seen.elems == old(seen.elems)
      ensures contexts == Mounts.ContextsOf(Graph(), e, old(seen.elems))
      decreases Graph().Left(seen.elems), 2, e
    {
      match e {
        case Name(declared, _) =>
          if declared.None? {
            return None;
          }
          contexts := OfDeclaration(declared.value, seen);
          return;
        case Made(_, _, _, _) =>
        case Call(receiver, called, at, site, _, app, _, _) =>
          var inner: Contexts := None;
          if receiver.app {
            inner := ContextsOf(receiver, seen);
          }
          if inner.Some? {
            if dialect.PassesThrough(called) {
              return inner;
            }
            if Some(called) == dialect.prefixMethod {
              if at.None? {
                return None;
              }
              var moved := PrefixAll(e, at.value, inner.value);
              return Some(moved);
            }
            return if app then inner else None;
          }
      }
      if !e.app {
        return None;
      }
      if e.owner.Some? && e.owner.value !in seen.elems {
        contexts := OfDeclaration(e.owner.value, seen);
      } else {
        contexts := Some([ROOT.(prefix := e.base.GetOr(""))]);
      }
    }

    method PrefixAll(e: Expr, at: string, inner: seq<RouteContext>) returns (moved: seq<RouteContext>)
      requires e.Call?
      ensures moved == AllPrefixed(Graph(), e, at, inner)
    {
      var owner := AppOwner(e.receiver);
      moved := [];
      for i := 0 to |inner|
        invariant |moved| == i
        invariant forall k | 0 <= k < i :: moved[k] == Prefixed(Graph(), e, at, inner[k])
      {
        var above := GuardsOn(owner, e.site, inner[i].prefix);
        moved := moved + [RouteContext(JoinPath([Some(inner[i].prefix), Some(at)]), inner[i].guards + above)];
      }
    }

    method OfDeclaration(d: Decl, seen: SeenSet) returns (contexts: Contexts)
      modifies seen
      ensures seen.elems == old(seen.elems)
      ensures contexts == Mounts.OfDeclaration(Graph(), d, old(seen.elems))
      decreases Graph().Left(seen.elems), 0
    {
      if d in seen.elems {
        return None;
      }
      Graph().EnteringShrinks(d, seen.elems);
      seen.elems := seen.elems + {d};
      contexts := BasesOf(d, seen);
      seen.elems := seen.elems - {d};
    }

    method BasesOf(d: Decl, seen: SeenSet) returns (contexts: Contexts)
      modifies seen
      ensures seen.elems == old(seen.elems)
      ensures contexts == Mounts.BasesOf(Graph(), d, old(seen.elems))
      decreases if d in Graph().Known() then Graph().Left(seen.elems) else 0, if d in Graph().Known() then 4 else 0, 1
    {
      if d in shifted && shifted[d].None? {
        return None;
      }
      var own := OwnOf(d, seen);
      if d !in mounts {
        return own;
      }
      var bases := own.GetOr([ROOT]);
      var out: seq<RouteContext> := [];
      assert mounts[d][0..] == mounts[d];
      NothingPreceded(UnderMounts(Graph(), mounts[d], bases, seen.elems));
      for i := 0 to |mounts[d]|
        invariant seen.elems == old(seen.elems)
        invariant UnderMounts(Graph(), mounts[d], bases, seen.elems)
               == Preceded(out, UnderMounts(Graph(), mounts[d][i..], bases, seen.elems))
      {
        var mount := mounts[d][i];
        assert mounts[d][i..][0] == mount && mounts[d][i..][1..] == mounts[d][i + 1..];
        if mount.at.None? {
          return None;
        }
        var above := ContextsOf(mount.parent, seen);
        if above.None? {
          return None;
        }
        var here := CrossAll(mount, mount.at.value, above.value, bases);
        PrecededTwice(out, here, UnderMounts(Graph(), mounts[d][i + 1..], bases, seen.elems));
        out := out + here;
      }
      assert mounts[d][|mounts[d]|..] == [];
      ConcatEmpty(out, []);
      contexts := Some(out);
    }

    /** What a declaration's own value says, moved where a call moves it. */
    method OwnOf(d: Decl, seen: SeenSet) returns (own: Contexts)
      modifies seen
      ensures seen.elems == old(seen.elems)
      ensures own == Mounts.OwnOf(Graph(), d, old(seen.elems))
      decreases if d in Graph().Known() then Graph().Left(seen.elems) else 0, if d in Graph().Known() then 4 else 0, 0
    {
      own := None;
      if d in values {
        own := ContextsOf(values[d], seen);
      }
      if own.Some? && d in shifted && shifted[d].Some? {
        own := Some(AllShifted(shifted[d].value, own.value));
      }
    }

    /** Every context above a mount crossed with every base below it. */
    method CrossAll(
        mount: Mount, at: string, above: seq<RouteContext>, bases: seq<RouteContext>)
        returns (out: seq<RouteContext>)
      ensures out == Crossed(Graph(), mount, at, above, bases)
    {
      out := [];
      assert above[0..] == above;
      ConcatEmpty([], Crossed(Graph(), mount, at, above, bases));
      for i := 0 to |above|
        invariant out + Crossed(Graph(), mount, at, above[i..], bases) == Crossed(Graph(), mount, at, above, bases)
      {
        assert above[i..][0] == above[i] && above[i..][1..] == above[i + 1..];
        var here := HangBelow(mount, at, above[i], bases);
        Associates(out, here, Crossed(Graph(), mount, at, above[i + 1..], bases));
        out := out + here;
      }
      ConcatEmpty(out, Crossed(Graph(), mount, at, above[|above|..], bases));
    }

    /** One context above a mount with every base below it. */
    method HangBelow(
        mount: Mount, at: string, outer: RouteContext, bases: seq<RouteContext>)
        returns (out: seq<RouteContext>)
      ensures out == AllHungUnder(Graph(), mount, at, outer, bases)
    {
      var parent := AppOwner(mount.parent);
      var guards := GuardsOn(parent, mount.site, outer.prefix);
      var inherited := outer.guards + guards;
      out := [];
      for k := 0 to |bases|
        invariant |out| == k
        invariant forall j | 0 <= j < k :: out[j] == Hung(Graph(), mount, at, outer, bases[j])
      {
        var inner := bases[k];
        out := out + [RouteContext(JoinPath([Some(outer.prefix), Some(at), Some(inner.prefix)]),
            inherited + inner.guards)];
      }
    }

    // ---- saying why ----

    method HelperAbove(declaration: Option<Decl>, seen: SeenSet) returns (helper: Option<string>)
      modifies seen
      ensures (helper, seen.elems) == HelperSearch.HelperFrom(Graph(), declaration, old(seen.elems))
      decreases Graph().Left(seen.elems), 0
    {
      if declaration.None? || declaration.value in seen.elems {
        return None;
      }
      var d := declaration.value;
      Graph().EnteringShrinks(d, seen.elems);
      seen.elems := seen.elems + {d};
      if d !in mounts {
        return None;
      }
      ghost var entered := seen.elems;
      for i := 0 to |mounts[d]|
        invariant entered <= seen.elems
        invariant HelperSearch.HelperAmong(Graph(), mounts[d], entered)
               == HelperSearch.HelperAmong(Graph(), mounts[d][i..], seen.elems)
      {
        assert mounts[d][i..][0] == mounts[d][i] && mounts[d][i..][1..] == mounts[d][i + 1..];
        if mounts[d][i].through.Some? {
          return mounts[d][i].through;
        }
        var owner := AppOwner(mounts[d][i].parent);
        HelperSearch.MoreSeen(Graph(), entered, seen.elems);
        var above := HelperAbove(owner, seen);
        if above.Some? {
          return above;
        }
      }
      helper := None;
    }
  }

  /** An answer with what was already found put in front of it. */
  function Preceded(out: seq<RouteContext>, rest: Contexts): Contexts {
    if rest.None? then None else Some(out + rest.value)
  }

  lemma NothingPreceded(rest: Contexts)
    ensures Preceded([], rest) == rest
  {
    if rest.Some? {
      ConcatEmpty([], rest.value);
    }
  }

  lemma PrecededTwice(out: seq<RouteContext>, here: seq<RouteContext>, rest: Contexts)
    ensures Preceded(out, Preceded(here, rest)) == Preceded(out + here, rest)
  {
    if rest.Some? {
      Associates(out, here, rest.value);
    }
  }
}
