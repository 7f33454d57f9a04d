/**
 * The links of a chain of calls, and the guards installed on the starting points
 * a chain is begun from (`chainOf` and `guardsBefore` in `procedure-routers.ts`).
 */
module ProcedureChains {
  import opened Seqs

  type Guard = nat
  type Symbol = nat

  /** A call's method and the guards its arguments would be. */
  datatype Link = Link(called: string, arguments: seq<Guard>)

  /** An expression, unwrapped: a name and what it resolves to, a call on a member, or anything else. */
  datatype Expr = Name(text: string, symbol: Symbol) | Call(receiver: Expr, link: Link) | Other(id: nat)

  function LinksOf(e: Expr): seq<Link> {
    if e.Call? then LinksOf(e.receiver) + [e.link] else []
  }

  function BaseOf(e: Expr): Expr {
    if e.Call? then BaseOf(e.receiver) else e
  }

  /** A call chain taken apart: its base, and its links as they are written, left to right. */
  method ChainOf(e: Expr) returns (links: seq<Link>, base: Expr)
    ensures links == LinksOf(e) && base == BaseOf(e)
  {
    links := [];
    var at := e;
    while at.Call?
      invariant LinksOf(at) + links == LinksOf(e) && BaseOf(at) == BaseOf(e)
      decreases at
    {
      Associates(LinksOf(at.receiver), [at.link], links);
      links := [at.link] + links;
      at := at.receiver;
    }
    base := at;
  }

  /** The expression that calls a chain of links on a base. */
  function Calling(base: Expr, links: seq<Link>): Expr {
    if |links| == 0 then base else Call(Calling(base, links[..|links| - 1]), links[|links| - 1])
  }

  /** A chain is its base with its links called on it. */
  lemma {:induction false} ChainRebuilds(e: Expr)
    ensures Calling(BaseOf(e), LinksOf(e)) == e && !BaseOf(e).Call?
  {
    if e.Call? {
      ChainRebuilds(e.receiver);
      var all := LinksOf(e.receiver) + [e.link];
      assert all[..|all| - 1] == LinksOf(e.receiver);
    }
  }

  /** And there is no other way to take one apart. */
  lemma {:induction false} ChainComesApartOneWay(base: Expr, links: seq<Link>)
    requires !base.Call?
    ensures BaseOf(Calling(base, links)) == base && LinksOf(Calling(base, links)) == links
  {
    if |links| > 0 {
      ChainComesApartOneWay(base, links[..|links| - 1]);
      assert links == links[..|links| - 1] + [links[|links| - 1]];
    }
  }

  /** The guards one chain installs, in the order they apply. */
  function GuardsOn(links: seq<Link>, guardMethod: string): seq<Guard> {
    if |links| == 0 then []
    else (if links[0].called == guardMethod then links[0].arguments else []) + GuardsOn(links[1..], guardMethod)
  }

  /** What each name was declared with. */
  type Declared = map<Symbol, Expr>

  /** Every name a declared chain starts from. */
  function StartingNames(declared: Declared): set<string> {
    set symbol | symbol in declared && BaseOf(declared[symbol]).Name? :: BaseOf(declared[symbol]).text
  }

  ghost function NamesLeft(declared: Declared, e: Expr, seen: set<string>): nat {
    |(StartingNames(declared) + (if e.Name? then {e.text} else {})) - seen|
  }

  /** Whether a name is followed: declared somewhere, and not followed on the way here. */
  predicate Follows(declared: Declared, e: Expr, seen: set<string>) {
    e.Name? && e.text !in seen && e.symbol in declared
  }

  lemma FollowingShrinks(declared: Declared, e: Expr, seen: set<string>)
    requires Follows(declared, e, seen)
    ensures NamesLeft(declared, BaseOf(declared[e.symbol]), seen + {e.text}) < NamesLeft(declared, e, seen)
  {
    var all := (StartingNames(declared) + {e.text}) - seen;
    var base := BaseOf(declared[e.symbol]);
    var rest := (StartingNames(declared) + (if base.Name? then {base.text} else {})) - (seen + {e.text});
    assert rest <= all - {e.text};
    SubsetSize(rest, all - {e.text});
  }

  /** Everything installed in front of a chain, outermost starting point first. */
  function GuardsBefore(declared: Declared, guardMethod: string, e: Expr, seen: set<string>): seq<Guard>
    decreases NamesLeft(declared, e, seen)
  {
    if !Follows(declared, e, seen) then []
    else
      var value := declared[e.symbol];
      FollowingShrinks(declared, e, seen);
      GuardsBefore(declared, guardMethod, BaseOf(value), seen + {e.text}) + GuardsOn(LinksOf(value), guardMethod)
  }

  // ---- what it comes to ----

  /** A trail of names, each the starting point of the chain the one before it was declared with. */
  ghost predicate IsTrail(declared: Declared, e: Expr, trail: seq<Expr>) {
    && |trail| > 0 && trail[0] == e
    && forall i | 0 <= i < |trail| - 1 ::
       trail[i].Name? && trail[i].symbol in declared && trail[i + 1] == BaseOf(declared[trail[i].symbol])
  }

  /** The guards of every name but the last of a trail, from the far end to the near. */
  function AlongTrail(declared: Declared, guardMethod: string, trail: seq<Expr>): seq<Guard> {
    if |trail| <= 1 then []
    else
      AlongTrail(declared, guardMethod, trail[1..]) +
      (if trail[0].Name? && trail[0].symbol in declared then GuardsOn(LinksOf(declared[trail[0].symbol]), guardMethod)
        else [])
  }

  /** How far a trail is followed: to the first name that is undeclared or spelled like an earlier one. */
  ghost predicate IsFollowed(declared: Declared, trail: seq<Expr>, seen: set<string>) {
    && |trail| > 0
    && forall i | 0 <= i < |trail| :: Follows(declared, trail[i], seen + TextsOf(trail[..i])) <==> i < |trail| - 1
  }

  function TextsOf(trail: seq<Expr>): set<string> {
    if |trail| == 0 then {} else (if trail[0].Name? then {trail[0].text} else {}) + TextsOf(trail[1..])
  }

  /**
   * The guards in front of a chain are those of the trail of starting points it
   * is begun from, the far ones first, as far as no spelling comes twice.
   */
  lemma {:induction false} GuardsFollowTrail(declared: Declared, guardMethod: string, e: Expr, seen: set<string>)
    returns (trail: seq<Expr>)
    ensures IsTrail(declared, e, trail) && IsFollowed(declared, trail, seen)
    ensures GuardsBefore(declared, guardMethod, e, seen) == AlongTrail(declared, guardMethod, trail)
    decreases NamesLeft(declared, e, seen)
  {
    if !Follows(declared, e, seen) {
      trail := [e];
      assert trail[..0] == [];
      assert seen + TextsOf([]) == seen;
    } else {
      FollowingShrinks(declared, e, seen);
      var rest := GuardsFollowTrail(declared, guardMethod, BaseOf(declared[e.symbol]), seen + {e.text});
      trail := [e] + rest;
      ConsTail(e, rest);
      FollowedFromBefore(declared, e, rest, seen);
    }
  }

  lemma FollowedFromBefore(declared: Declared, e: Expr, rest: seq<Expr>, seen: set<string>)
    requires Follows(declared, e, seen) && IsFollowed(declared, rest, seen + {e.text})
    ensures IsFollowed(declared, [e] + rest, seen)
  {
    var trail := [e] + rest;
    forall i | 0 <= i < |trail| ensures Follows(declared, trail[i], seen + TextsOf(trail[..i])) <==> i < |trail| - 1 {
      if i == 0 {
        assert trail[..0] == [];
        assert seen + TextsOf([]) == seen;
      } else {
        TextsLater(e, rest, seen, i);
        assert trail[i] == rest[i - 1];
      }
    }
  }

  lemma TextsLater(e: Expr, rest: seq<Expr>, seen: set<string>, i: nat)
    requires e.Name? && 0 < i <= |rest|
    ensures seen + TextsOf(([e] + rest)[..i]) == seen + {e.text} + TextsOf(rest[..i - 1])
  {
    assert ([e] + rest)[..i] == [e] + rest[..i - 1];
    ConsTail(e, rest[..i - 1]);
  }

  // ---- exactly when nothing on the trail is missed ----

  /** A trail to its end: the last starting point is no name declared anywhere. */
  ghost predicate IsWhole(declared: Declared, e: Expr, trail: seq<Expr>) {
    IsTrail(declared, e, trail) && !(trail[|trail| - 1].Name? && trail[|trail| - 1].symbol in declared)
  }

  /** Where a trail first comes to a spelling it has passed, or its end where it comes to none. */
  ghost predicate IsCut(trail: seq<Expr>, seen: set<string>, k: nat) {
    && k < |trail|
    && (forall i | 0 <= i < k :: !SpelledBefore(trail, seen, i))
    && (k == |trail| - 1 || SpelledBefore(trail, seen, k))
  }

  predicate SpelledBefore(trail: seq<Expr>, seen: set<string>, i: nat)
    requires i < |trail|
  {
    trail[i].Name? && trail[i].text in seen + TextsOf(trail[..i])
  }

  lemma {:induction false} SomeCut(trail: seq<Expr>, seen: set<string>, from: nat) returns (k: nat)
    requires from < |trail| && forall i | 0 <= i < from :: !SpelledBefore(trail, seen, i)
    ensures IsCut(trail, seen, k)
    decreases |trail| - from
  {
    k := from;
    if from < |trail| - 1 && !SpelledBefore(trail, seen, from) {
      k := SomeCut(trail, seen, from + 1);
    }
  }

  /** The guards found in front of a chain are those of its whole trail, less those from the cut on. */
  lemma {:induction false} GuardsUpToCut(
      declared: Declared, guardMethod: string, e: Expr, trail: seq<Expr>, seen: set<string>, k: nat)
    requires IsWhole(declared, e, trail) && IsCut(trail, seen, k)
    ensures AlongTrail(declared, guardMethod, trail)
         == AlongTrail(declared, guardMethod, trail[k..]) + GuardsBefore(declared, guardMethod, e, seen)
    decreases |trail|
  {
    if k == 0 {
      assert trail[0..] == trail && trail[..0] == [];
      assert !Follows(declared, e, seen);
      ConcatEmpty(AlongTrail(declared, guardMethod, trail), []);
    } else {
      var rest := trail[1..];
      assert trail == [e] + rest;
      assert !SpelledBefore(trail, seen, 0) && trail[..0] == [];
      assert Follows(declared, e, seen);
      FollowingShrinks(declared, e, seen);
      CutLater(e, rest, seen, k);
      WholeLater(declared, e, rest);
      GuardsUpToCut(declared, guardMethod, rest[0], rest, seen + {e.text}, k - 1);
      assert rest[k - 1..] == trail[k..];
      Associates(
        AlongTrail(declared, guardMethod, trail[k..]),
        GuardsBefore(declared, guardMethod, rest[0], seen + {e.text}),
        GuardsOn(LinksOf(declared[e.symbol]), guardMethod));
    }
  }

  lemma WholeLater(declared: Declared, e: Expr, rest: seq<Expr>)
    requires |rest| > 0 && IsWhole(declared, e, [e] + rest)
    ensures IsWhole(declared, rest[0], rest)
    ensures e.Name? && e.symbol in declared && rest[0] == BaseOf(declared[e.symbol])
  {
    var trail := [e] + rest;
    forall i | 0 <= i < |rest| - 1
      ensures rest[i].Name? && rest[i].symbol in declared && rest[i + 1] == BaseOf(declared[rest[i].symbol])
    {
      assert trail[i + 1] == rest[i] && trail[i + 2] == rest[i + 1];
    }
    assert trail[|trail| - 1] == rest[|rest| - 1];
    assert trail[1] == rest[0];
  }

  lemma CutLater(e: Expr, rest: seq<Expr>, seen: set<string>, k: nat)
    requires e.Name? && |rest| > 0 && k > 0 && IsCut([e] + rest, seen, k)
    ensures IsCut(rest, seen + {e.text}, k - 1)
  {
    var trail := [e] + rest;
    forall i | 0 <= i < |rest| ensures SpelledBefore(rest, seen + {e.text}, i) <==> SpelledBefore(trail, seen, i + 1) {
      TextsLater(e, rest, seen, i + 1);
      assert trail[i + 1] == rest[i];
    }
  }

  /**
   * The guards in front of a chain are those of its whole trail exactly when
   * nothing is installed from the first spelling on that the trail comes to twice.
   */
  lemma WholeTrailExactly(declared: Declared, guardMethod: string, e: Expr, trail: seq<Expr>, k: nat)
    requires IsWhole(declared, e, trail) && IsCut(trail, {}, k)
    ensures GuardsBefore(declared, guardMethod, e, {}) == AlongTrail(declared, guardMethod, trail)
       <==> |AlongTrail(declared, guardMethod, trail[k..])| == 0
  {
    GuardsUpToCut(declared, guardMethod, e, trail, {}, k);
    ConcatEmpty(AlongTrail(declared, guardMethod, trail[k..]), GuardsBefore(declared, guardMethod, e, {}));
  }

  /** In particular when no two starting points are spelled alike. */
  lemma DistinctSpellingsSuffice(declared: Declared, guardMethod: string, e: Expr, trail: seq<Expr>)
    requires IsWhole(declared, e, trail)
    requires forall i, j | 0 <= i < j < |trail| && trail[i].Name? && trail[j].Name? :: trail[i].text != trail[j].text
    ensures GuardsBefore(declared, guardMethod, e, {}) == AlongTrail(declared, guardMethod, trail)
  {
    var k := SomeCut(trail, {}, 0);
    if SpelledBefore(trail, {}, k) {
      var i := SpelledEarlier(trail, k, trail[k].text);
    }
    WholeTrailExactly(declared, guardMethod, e, trail, k);
  }

  lemma {:induction false} SpelledEarlier(trail: seq<Expr>, k: nat, text: string) returns (i: nat)
    requires k <= |trail| && text in TextsOf(trail[..k])
    ensures i < k && trail[i].Name? && trail[i].text == text
    decreases k
  {
    i := 0;
    if !(trail[0].Name? && trail[0].text == text) {
      assert trail[..k][1..] == trail[1..][..k - 1];
      var later := SpelledEarlier(trail[1..], k - 1, text);
      i := later + 1;
    }
  }

  /**
   * A starting point spelled like one already followed is taken for it: with
   * `procedure` in one file begun from `base`, and `base` from another file's
   * `procedure`, the guards of the second are not found.
   */
  lemma SameSpellingCutsTrail()
    ensures IsTrail(TWO_PROCEDURES, Name("procedure", 0), TWO_PROCEDURES_TRAIL)
    ensures forall i, j | 0 <= i < j < |TWO_PROCEDURES_TRAIL| :: TWO_PROCEDURES_TRAIL[i] != TWO_PROCEDURES_TRAIL[j]
    ensures AlongTrail(TWO_PROCEDURES, "use", TWO_PROCEDURES_TRAIL) == [7]
    ensures GuardsBefore(TWO_PROCEDURES, "use", Name("procedure", 0), {}) == []
  {
    var base, far, root := Name("base", 1), Name("procedure", 2), Other(3);
    var trail := TWO_PROCEDURES_TRAIL;
    assert trail[1..] == [base, far, root] && trail[1..][1..] == [far, root] && trail[1..][1..][1..] == [root];
    assert LinksOf(TWO_PROCEDURES[2]) == [Link("use", [7])];
    assert GuardsOn([Link("use", [7])], "use") == [7];
    assert AlongTrail(TWO_PROCEDURES, "use", [far, root]) == [7];
    assert AlongTrail(TWO_PROCEDURES, "use", [base, far, root]) == [7];
    assert GuardsBefore(TWO_PROCEDURES, "use", far, {} + {"procedure"} + {"base"}) == [];
    assert GuardsBefore(TWO_PROCEDURES, "use", base, {} + {"procedure"}) == [];
  }

  const TWO_PROCEDURES: Declared := map[0 := Name("base", 1), 1 := Name("procedure", 2),
      2 := Call(Other(3), Link("use", [7]))]
  const TWO_PROCEDURES_TRAIL := [Name("procedure", 0), Name("base", 1), Name("procedure", 2), Other(3)]
}
