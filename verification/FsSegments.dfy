/**
 * One segment of a directory path as a file-system router reads it
 * (`segmentOf` and the segment rules in `fs-routes.ts`).
 */
module FsSegments {
  import opened Wrappers
  import opened Seqs

  datatype Convention = Group | Slot | Private | Pathless | Mixed | CatchAll | Param | Dollar

  /** What a segment contributes to the address, and to the path as written. */
  datatype SegmentReading = SegmentReading(read: string, raw: string)

  /** What a rule says of a segment: not its business, nothing at all, or a reading. */
  datatype Ruling = NotMine | Nothing | Reads(reading: SegmentReading)

  /** Earlier conventions claim a segment before later ones see it. */
  const CONVENTION_ORDER := [Group, Slot, Private, Pathless, Mixed, CatchAll, Param, Dollar]

  const PARAM_PLACEHOLDER := ":param"

  // ---- how segments are spelled ----

  predicate Starts(text: string, c: char) {
    |text| > 0 && text[0] == c
  }

  predicate Ends(text: string, c: char) {
    |text| > 0 && text[|text| - 1] == c
  }

  /** `(admin)`. */
  predicate IsGroup(segment: string) {
    |segment| >= 2 && Starts(segment, '(') && Ends(segment, ')')
  }

  /** `[[lang]]` read as `[lang]`. */
  function OneBracket(segment: string): string {
    if |segment| >= 4 && segment[0] == '[' && segment[1] == '[' && segment[|segment| - 2] == ']'
      && segment[|segment| - 1] == ']'
    then segment[1..|segment| - 1] else segment
  }

  predicate IsOptional(segment: string) {
    |segment| >= 5 && OneBracket(segment) != segment
  }

  /** What a bracketed segment holds: whether it is any number of segments, and its name. */
  function Dynamic(segment: string): Option<(bool, string)> {
    var one := OneBracket(segment);
    if |one| < 3 || !Starts(one, '[') || !Ends(one, ']') then None
    else
      var inner := one[1..|one| - 1];
      if "..." <= inner && |inner| > 3 then Some((true, inner[3..])) else Some((false, inner))
  }

  /** A name up to a matcher written after it. */
  function BeforeMatcher(name: string): string {
    if |name| == 0 || name[0] == '=' then "" else [name[0]] + BeforeMatcher(name[1..])
  }

  function Named(read: string, name: string, optional: bool): SegmentReading {
    SegmentReading(read, if |name| == 0 then read else ":" + name + (if optional then "?" else ""))
  }

  predicate IsWord(c: char) {
    'a' <= c <= 'z' || 'A' <= c <= 'Z' || '0' <= c <= '9' || c == '_' || c == '-'
  }

  /** Text in parentheses, read under the dollar convention as a literal with a question mark. */
  predicate IsOptionalLiteral(segment: string) {
    && IsGroup(segment)
    && |segment| > 2
    && segment[1] != '$'
    && '(' !in segment[1..|segment| - 1]
    && ')' !in segment[1..|segment| - 1]
  }

  /** `$id`, `$` and `($lang)`: the name, and whether it may be absent. */
  function DollarName(segment: string): Option<(string, bool)> {
    var optional := Starts(segment, '(');
    var inner := if optional then segment[1..] else segment;
    if !Starts(inner, '$') then None
    else
      var name := if Ends(inner, ')') then inner[1..|inner| - 1] else inner[1..];
      if forall i | 0 <= i < |name| :: IsWord(name[i]) then Some((name, optional)) else None
  }

  // ---- brackets inside a segment ----

  /** What stands between a bracket opened here and the next one closed, where that is something. */
  function Inside(text: string): (inner: Option<string>)
    ensures inner.Some? ==> 0 < |inner.value| <= |text| - 2 && inner.value <= text[1..] && ']' !in inner.value
  {
    if !Starts(text, '[') then None
    else
      var at := UpToClose(text[1..]);
      if at == 0 || at == |text| - 1 then None else Some(text[1..][..at])
  }

  function UpToClose(text: string): (at: nat)
    ensures at <= |text| && ']' !in text[..at]
    ensures at < |text| ==> text[at] == ']'
  {
    if |text| == 0 || text[0] == ']' then 0
    else
      var rest := UpToClose(text[1..]);
      assert text[..rest + 1] == [text[0]] + text[1..][..rest];
      rest + 1
  }

  predicate IsHex(c: char) {
    '0' <= c <= '9' || 'a' <= c <= 'f' || 'A' <= c <= 'F'
  }

  /** The digits of an escaped character, `x+2e` or `u+00e9`. */
  function EscapeDigits(inner: string): Option<string> {
    if |inner| > 2 && (inner[0] == 'x' || inner[0] == 'u') && inner[1] == '+'
      && (forall i | 2 <= i < |inner| :: IsHex(inner[i]))
    then Some(inner[2..]) else None
  }

  function HexOf(c: char): nat
    requires IsHex(c)
  {
    if '0' <= c <= '9' then (c - '0') as nat else if 'a' <= c <= 'f' then (c - 'a') as nat + 10
    else (c - 'A') as nat + 10
  }

  function PointOf(digits: string): nat
    requires forall i | 0 <= i < |digits| :: IsHex(digits[i])
  {
    if |digits| == 0 then 0 else 16 * PointOf(digits[..|digits| - 1]) + HexOf(digits[|digits| - 1])
  }

  const ESCAPE_DIGITS := 6
  const LAST_CODE_POINT := 0x10ffff

  /** Characters an escape must not put into an address, where they would mean something. */
  function Encoded(c: char): string {
    if c == '?' then "%3F" else if c == ':' then "%3A" else if c == '/' then "%2F"
    else if c == '%' then "%25" else if c == '#' then "%23" else [c]
  }

  /**
   * The character of an escape's code point, encoded where it means something; an
   * escape of no character is left alone.
   */
  function EscapedCharacter(digits: string, written: string): string
    requires forall i | 0 <= i < |digits| :: IsHex(digits[i])
  {
    var point := PointOf(digits);
    if |digits| > ESCAPE_DIGITS || point > LAST_CODE_POINT || 0xD800 <= point <= 0xDFFF then written
    else Encoded(point as char)
  }

  /** A segment with each bracket inside it replaced: an escape by its character, a parameter as it is named. */
  function Spell(segment: string, name: string -> string): string
    decreases |segment|
  {
    if |segment| == 0 then ""
    else
      var inner := Inside(segment);
      if inner.None? then [segment[0]] + Spell(segment[1..], name)
      else
        var width := |inner.value| + 2;
        var digits := EscapeDigits(inner.value);
        (if digits.Some? then EscapedCharacter(digits.value, segment[..width]) else name(inner.value))
        + Spell(segment[width..], name)
  }

  /** Whether any bracket inside a segment holds something, and whether any is an escape. */
  function Brackets(segment: string): (bool, bool)
    decreases |segment|
  {
    if |segment| == 0 then (false, false)
    else
      var inner := Inside(segment);
      if inner.None? then Brackets(segment[1..])
      else (true, EscapeDigits(inner.value).Some? || Brackets(segment[|inner.value| + 2..]).1)
  }

  /** One name in one or two brackets at either end, and nothing else. */
  predicate IsWholeDynamic(segment: string) {
    Encloses("[", segment, "]") || Encloses("[", segment, "]]") || Encloses("[[", segment, "]")
        || Encloses("[[", segment, "]]")
  }

  predicate Encloses(front: string, segment: string, back: string) {
    && |segment| > |front| + |back|
    && front <= segment
    && segment[|segment| - |back|..] == back
    && PlainInside(segment[|front|..|segment| - |back|])
  }

  predicate PlainInside(inner: string) {
    '[' !in inner && ']' !in inner
  }

  // ---- the rules ----

  function ParamName(param: string): string {
    ":" + BeforeMatcher(param)
  }

  function PlaceholderFor(param: string): string {
    PARAM_PLACEHOLDER
  }

  /** What each rule says of a segment, but the one that hands what is left of it to the rules after it. */
  function Ruled(convention: Convention, segment: string): Ruling
    requires !convention.Pathless?
  {
    match convention
    case Group => if IsGroup(segment) then Nothing else NotMine
    case Slot => if Starts(segment, '@') then Nothing else NotMine
    case Private => if Starts(segment, '_') then Nothing else NotMine
    case CatchAll =>
      var dynamic := Dynamic(segment);
      if dynamic.None? || !dynamic.value.0 then NotMine
      else Reads(Named("*", BeforeMatcher(dynamic.value.1), IsOptional(segment)))
    case Param =>
      var dynamic := Dynamic(segment);
      if dynamic.None? || dynamic.value.0 then NotMine
      else Reads(Named(PARAM_PLACEHOLDER, BeforeMatcher(dynamic.value.1), IsOptional(segment)))
    case Dollar =>
      if IsOptionalLiteral(segment) then
        Reads(SegmentReading(segment[1..|segment| - 1], segment[1..|segment| - 1] + "?"))
      else
        var name := DollarName(segment);
        if name.None? then NotMine
        else if |name.value.0| == 0 then Reads(SegmentReading("*", "*"))
        else Reads(Named(PARAM_PLACEHOLDER, name.value.0, name.value.1))
    case Mixed => MixedRuled(segment)
  }

  /** A segment with a parameter anywhere inside it, short of one that is a parameter whole. */
  function MixedRuled(segment: string): Ruling {
    var (some, escaped) := Brackets(segment);
    if !some || (!escaped && IsWholeDynamic(segment)) then NotMine
    else Reads(SegmentReading(Spell(segment, PlaceholderFor), Spell(segment, ParamName)))
  }

  /** One segment, offered to each convention the router honours in turn; none where it adds nothing to the address. */
  function SegmentOf(segment: string, honoured: seq<Convention>, from: nat): Option<SegmentReading>
    requires from <= |CONVENTION_ORDER|
    decreases |CONVENTION_ORDER| - from
  {
    if |segment| == 0 then None
    else if from == |CONVENTION_ORDER| then Some(SegmentReading(segment, segment))
    else
      var convention := CONVENTION_ORDER[from];
      if convention !in honoured then SegmentOf(segment, honoured, from + 1)
      else if convention.Pathless? then
        if Starts(segment, '_') then None
        else if !Ends(segment, '_') then SegmentOf(segment, honoured, from + 1)
        else SegmentOf(segment[..|segment| - 1], honoured, from + 1)
      else match Ruled(convention, segment)
        case NotMine => SegmentOf(segment, honoured, from + 1)
        case Nothing => None
        case Reads(reading) => Some(reading)
  }

  // ---- what a reading keeps ----

  /** A group, where the router honours groups, adds nothing to the address; and so a slot. */
  lemma GroupOrSlotAddsNothing(segment: string, honoured: seq<Convention>)
    requires (IsGroup(segment) && Group in honoured) || (Starts(segment, '@') && Slot in honoured)
    ensures SegmentOf(segment, honoured, 0).None?
    ensures !Starts(segment, '_')
  {
    assert CONVENTION_ORDER[0] == Group && CONVENTION_ORDER[1] == Slot;
    if Starts(segment, '@') && Slot in honoured {
      assert SegmentOf(segment, honoured, 1).None?;
    }
  }

  /** A segment none of the router's conventions claims is itself. */
  lemma {:induction false} UnclaimedIsItself(segment: string, honoured: seq<Convention>, from: nat)
    requires from <= |CONVENTION_ORDER| && |segment| > 0
    requires forall k | from <= k < |CONVENTION_ORDER| && CONVENTION_ORDER[k] in honoured ::
      if CONVENTION_ORDER[k].Pathless? then !Starts(segment, '_') && !Ends(segment, '_')
      else Ruled(CONVENTION_ORDER[k], segment).NotMine?
    ensures SegmentOf(segment, honoured, from) == Some(SegmentReading(segment, segment))
    decreases |CONVENTION_ORDER| - from
  {
    if from < |CONVENTION_ORDER| {
      UnclaimedIsItself(segment, honoured, from + 1);
    }
  }

  // ---- a segment stays one segment ----

  lemma {:induction false} MatcherDropped(name: string)
    ensures BeforeMatcher(name) <= name
  {
    if |name| > 0 && name[0] != '=' {
      MatcherDropped(name[1..]);
    }
  }

  predicate Whole(text: string) {
    '/' !in text
  }

  lemma WholeConcat(a: string, b: string)
    ensures Whole(a + b) <==> Whole(a) && Whole(b)
  {
  }

  lemma WholePart(text: string, i: nat, j: nat)
    requires i <= j <= |text| && Whole(text)
    ensures Whole(text[i..j])
  {
  }

  lemma EscapeIsWhole(digits: string, written: string)
    requires forall i | 0 <= i < |digits| :: IsHex(digits[i])
    requires Whole(written)
    ensures Whole(EscapedCharacter(digits, written))
  {
  }

  lemma {:induction false} SpelledIsWhole(segment: string, name: string -> string)
    requires Whole(segment)
    requires forall param: string :: Whole(param) ==> Whole(name(param))
    ensures Whole(Spell(segment, name))
    decreases |segment|
  {
    if |segment| > 0 {
      var inner := Inside(segment);
      var width := if inner.None? then 1 else |inner.value| + 2;
      WholePart(segment, width, |segment|);
      SpelledIsWhole(segment[width..], name);
      WholePart(segment, 0, width);
      if inner.Some? {
        WholePart(segment[1..], 0, |inner.value|);
        var digits := EscapeDigits(inner.value);
        if digits.Some? {
          EscapeIsWhole(digits.value, segment[..width]);
          WholeConcat(EscapedCharacter(digits.value, segment[..width]), Spell(segment[width..], name));
        } else {
          WholeConcat(name(inner.value), Spell(segment[width..], name));
        }
      } else {
        WholeConcat([segment[0]], Spell(segment[1..], name));
      }
    }
  }

  lemma NameIsWhole(param: string)
    requires Whole(param)
    ensures Whole(BeforeMatcher(param)) && Whole(ParamName(param))
  {
    MatcherDropped(param);
    WholeConcat(":", BeforeMatcher(param));
  }

  lemma NamedIsWhole(read: string, name: string, optional: bool)
    requires Whole(read) && Whole(name)
    ensures Whole(Named(read, name, optional).read) && Whole(Named(read, name, optional).raw)
  {
    WholeConcat(":" + name, if optional then "?" else "");
    WholeConcat(":", name);
  }

  lemma RuledIsWhole(convention: Convention, segment: string)
    requires !convention.Pathless? && Whole(segment) && Ruled(convention, segment).Reads?
    ensures Whole(Ruled(convention, segment).reading.read) && Whole(Ruled(convention, segment).reading.raw)
  {
    if convention.Mixed? {
      forall param: string | Whole(param) ensures Whole(ParamName(param)) {
        NameIsWhole(param);
      }
      SpelledIsWhole(segment, PlaceholderFor);
      SpelledIsWhole(segment, ParamName);
    } else if convention.Dollar? && IsOptionalLiteral(segment) {
      WholePart(segment, 1, |segment| - 1);
      WholeConcat(segment[1..|segment| - 1], "?");
    } else if convention.Dollar? {
      var name := DollarName(segment).value;
      NamedIsWhole(PARAM_PLACEHOLDER, name.0, name.1);
    } else if convention.CatchAll? || convention.Param? {
      var name := Dynamic(segment).value.1;
      assert Whole(OneBracket(segment));
      NameIsWhole(name);
      NamedIsWhole(if convention.CatchAll? then "*" else PARAM_PLACEHOLDER, BeforeMatcher(name), IsOptional(segment));
    }
  }

  /** However a segment is read, it stays one segment: escapes and names bring no slash into it. */
  lemma {:induction false} ReadingIsWhole(segment: string, honoured: seq<Convention>, from: nat)
    requires from <= |CONVENTION_ORDER| && Whole(segment)
    requires SegmentOf(segment, honoured, from).Some?
    ensures Whole(SegmentOf(segment, honoured, from).value.read) && Whole(SegmentOf(segment, honoured, from).value.raw)
    decreases |CONVENTION_ORDER| - from
  {
    if from < |CONVENTION_ORDER| {
      var convention := CONVENTION_ORDER[from];
      if convention in honoured && !convention.Pathless? {
        if Ruled(convention, segment).Reads? {
          RuledIsWhole(convention, segment);
        } else {
          ReadingIsWhole(segment, honoured, from + 1);
        }
      } else if convention in honoured && Ends(segment, '_') {
        WholePart(segment, 0, |segment| - 1);
        ReadingIsWhole(segment[..|segment| - 1], honoured, from + 1);
      } else {
        ReadingIsWhole(segment, honoured, from + 1);
      }
    }
  }

  // ---- what each spelling stands for, whatever else a router honours ----

  lemma {:induction false} NoBracketInside(text: string)
    requires '[' !in text
    ensures Brackets(text) == (false, false)
  {
    if |text| > 0 {
      assert text[0] != '[';
      NoBracketInside(text[1..]);
    }
  }

  /** What stands up to the first closing bracket. */
  lemma {:induction false} UpToFirstClose(text: string, rest: string)
    requires ']' !in text
    ensures UpToClose(text + ("]" + rest)) == |text|
  {
    if |text| > 0 {
      ConcatTail(text, "]" + rest);
      UpToFirstClose(text[1..], rest);
    } else {
      ConcatEmpty(text, "]" + rest);
    }
  }

  /** A bracket opened in front of a name holds it. */
  lemma BracketHolds(inner: string, rest: string)
    requires |inner| > 0 && ']' !in inner
    ensures Inside("[" + inner + "]" + rest) == Some(inner)
    ensures ("[" + inner + "]" + rest)[|inner| + 2..] == rest
  {
    var text := "[" + inner + "]" + rest;
    assert text[1..] == inner + ("]" + rest);
    UpToFirstClose(inner, rest);
    assert text[1..][..|inner|] == inner;
  }

  /** The mixed convention leaves a whole bracketed name to the conventions after it. */
  lemma WholeIsNotMixed(segment: string, inner: string)
    requires |inner| > 0 && PlainInside(inner) && EscapeDigits(inner).None?
    requires segment == "[" + inner + "]" || segment == "[[" + inner + "]]"
    ensures Ruled(Mixed, segment).NotMine?
  {
    RuledMixed(segment);
    WholeIsEnclosed(segment, inner);
    if segment == "[" + inner + "]" {
      assert segment == "[" + inner + "]" + "";
      BracketHolds(inner, "");
      assert Brackets("") == (false, false);
    } else {
      assert segment == "[" + ("[" + inner) + "]" + "]";
      BracketHolds("[" + inner, "]");
      assert ("[" + inner)[0] == '[';
      NoBracketInside("]");
    }
  }

  lemma WholeIsEnclosed(segment: string, inner: string)
    requires |inner| > 0 && PlainInside(inner)
    requires segment == "[" + inner + "]" || segment == "[[" + inner + "]]"
    ensures IsWholeDynamic(segment)
  {
    if segment == "[" + inner + "]" {
      assert segment[1..|segment| - 1] == inner && segment[|segment| - 1..] == "]";
      assert Encloses("[", segment, "]");
    } else {
      assert segment[2..|segment| - 2] == inner && segment[|segment| - 2..] == "]]";
      assert Encloses("[[", segment, "]]");
    }
  }

  /** A convention has nothing to say of a segment. */
  predicate Passes(convention: Convention, segment: string) {
    if convention.Pathless? then !Starts(segment, '_') && !Ends(segment, '_') else Ruled(convention, segment).NotMine?
  }

  /** A segment is left to the conventions from some place on, where none honoured before it claims it. */
  lemma {:induction false} LeftTo(segment: string, honoured: seq<Convention>, from: nat, to: nat)
    requires from <= to <= |CONVENTION_ORDER| && |segment| > 0
    requires forall k | from <= k < to :: CONVENTION_ORDER[k] in honoured ==> Passes(CONVENTION_ORDER[k], segment)
    ensures SegmentOf(segment, honoured, from) == SegmentOf(segment, honoured, to)
    decreases |CONVENTION_ORDER| - from
  {
    if from < to {
      LeftTo(segment, honoured, from + 1, to);
    }
  }

  /** The first convention honoured to claim a segment reads it. */
  lemma FirstClaims(segment: string, honoured: seq<Convention>, to: nat, reading: SegmentReading)
    requires to < |CONVENTION_ORDER| && |segment| > 0
    requires forall k | 0 <= k < to :: CONVENTION_ORDER[k] in honoured ==> Passes(CONVENTION_ORDER[k], segment)
    requires CONVENTION_ORDER[to] in honoured && !CONVENTION_ORDER[to].Pathless?
             && Ruled(CONVENTION_ORDER[to], segment) == Reads(reading)
    ensures SegmentOf(segment, honoured, 0) == Some(reading)
  {
    LeftTo(segment, honoured, 0, to);
  }

  /** No earlier convention claims a whole bracketed name. */
  lemma WholeIsLeft(segment: string, inner: string)
    requires |inner| > 0 && PlainInside(inner) && EscapeDigits(inner).None?
    requires segment == "[" + inner + "]" || segment == "[[" + inner + "]]"
    ensures |segment| > 0
    ensures forall k | 0 <= k < 5 :: Passes(CONVENTION_ORDER[k], segment)
  {
    WholeIsNotMixed(segment, inner);
    assert segment[0] == '[' && segment[|segment| - 1] == ']';
    assert CONVENTION_ORDER[..5] == [Group, Slot, Private, Pathless, Mixed];
    forall k | 0 <= k < 5 ensures CONVENTION_ORDER[k] == CONVENTION_ORDER[..5][k] {
    }
  }

  /**
   * `[id]` is a parameter, and `[[id]]` one that may be absent, named up to a
   * matcher: any text free of brackets that neither escapes a character nor is
   * three dots and more.
   */
  lemma BracketIsParam(inner: string, honoured: seq<Convention>)
    requires |inner| > 0 && PlainInside(inner) && EscapeDigits(inner).None?
    requires "..." <= inner ==> |inner| == 3
    requires Param in honoured
    ensures SegmentOf("[" + inner + "]", honoured, 0) == Some(Named(PARAM_PLACEHOLDER, BeforeMatcher(inner), false))
    ensures SegmentOf("[[" + inner + "]]", honoured, 0) == Some(Named(PARAM_PLACEHOLDER, BeforeMatcher(inner), true))
  {
    BracketsAreDynamic(inner);
    NamedParam("[" + inner + "]", inner, honoured, false);
    NamedParam("[[" + inner + "]]", inner, honoured, true);
  }

  lemma NamedParam(segment: string, inner: string, honoured: seq<Convention>, optional: bool)
    requires |inner| > 0 && PlainInside(inner) && EscapeDigits(inner).None? && Param in honoured
    requires segment == "[" + inner + "]" || segment == "[[" + inner + "]]"
    requires Dynamic(segment) == Some((false, inner)) && IsOptional(segment) == optional
    ensures SegmentOf(segment, honoured, 0) == Some(Named(PARAM_PLACEHOLDER, BeforeMatcher(inner), optional))
  {
    WholeIsLeft(segment, inner);
    assert CONVENTION_ORDER[5] == CatchAll && CONVENTION_ORDER[6] == Param;
    assert Ruled(CatchAll, segment).NotMine?;
    FirstClaims(segment, honoured, 6, Named(PARAM_PLACEHOLDER, BeforeMatcher(inner), optional));
  }

  lemma BracketsAreDynamic(inner: string)
    requires |inner| > 0 && PlainInside(inner) && ("..." <= inner ==> |inner| == 3)
    ensures Dynamic("[" + inner + "]") == Some((false, inner)) && !IsOptional("[" + inner + "]")
    ensures Dynamic("[[" + inner + "]]") == Some((false, inner)) && IsOptional("[[" + inner + "]]")
  {
    var once, twice := "[" + inner + "]", "[[" + inner + "]]";
    assert once[1] == inner[0] && OneBracket(once) == once;
    assert once[1..|once| - 1] == inner;
    assert twice[1..|twice| - 1] == once;
  }

  /** Three dots inside brackets: a star, with the name up to any matcher in the path as written. */
  lemma DotsAreRest(name: string, honoured: seq<Convention>)
    requires |name| > 0 && PlainInside(name) && CatchAll in honoured
    ensures SegmentOf("[..." + name + "]", honoured, 0) == Some(Named("*", BeforeMatcher(name), false))
  {
    var segment, inner := "[..." + name + "]", "..." + name;
    DotsInside(name);
    DotsAreDynamic(segment, name);
    RestOf(segment, inner, name, honoured);
  }

  lemma DotsInside(name: string)
    requires PlainInside(name)
    ensures "[..." + name + "]" == "[" + ("..." + name) + "]"
    ensures PlainInside("..." + name) && EscapeDigits("..." + name).None?
  {
    assert ("..." + name)[0] == '.';
  }

  lemma RestOf(segment: string, inner: string, name: string, honoured: seq<Convention>)
    requires |inner| > 0 && PlainInside(inner) && EscapeDigits(inner).None? && segment == "[" + inner + "]"
    requires Dynamic(segment) == Some((true, name)) && !IsOptional(segment) && CatchAll in honoured
    ensures SegmentOf(segment, honoured, 0) == Some(Named("*", BeforeMatcher(name), false))
  {
    WholeIsLeft(segment, inner);
    assert CONVENTION_ORDER[5] == CatchAll;
    FirstClaims(segment, honoured, 5, Named("*", BeforeMatcher(name), false));
  }

  lemma DotsAreDynamic(segment: string, name: string)
    requires |name| > 0 && segment == "[" + ("..." + name) + "]"
    ensures Dynamic(segment) == Some((true, name)) && !IsOptional(segment)
  {
    var inner := "..." + name;
    assert segment[1] == '.';
    assert OneBracket(segment) == segment;
    assert segment[1..|segment| - 1] == inner;
    assert inner[3..] == name;
  }

  /**
   * `foo-[id]` keeps the literal around the parameter, whatever the literal,
   * short of what another convention honoured claims.
   */
  lemma BracketAfterLiteral(literal: string, name: string, honoured: seq<Convention>)
    requires |literal| > 0 && '[' !in literal && Mixed in honoured
    requires |name| > 0 && ']' !in name && EscapeDigits(name).None?
    requires Slot in honoured ==> literal[0] != '@'
    requires Private in honoured || Pathless in honoured ==> literal[0] != '_'
    ensures SegmentOf(literal + ("[" + name + "]"), honoured, 0)
         == Some(SegmentReading(literal + PARAM_PLACEHOLDER, literal + (":" + BeforeMatcher(name))))
  {
    var segment := literal + ("[" + name + "]");
    MixedReads(literal, name);
    assert segment[0] == literal[0] && segment[|segment| - 1] == ']';
    assert CONVENTION_ORDER[4] == Mixed;
    assert CONVENTION_ORDER[..4] == [Group, Slot, Private, Pathless];
    forall k | 0 <= k < 4 && CONVENTION_ORDER[k] in honoured ensures Passes(CONVENTION_ORDER[k], segment) {
      assert CONVENTION_ORDER[k] == CONVENTION_ORDER[..4][k];
    }
    FirstClaims(segment, honoured, 4,
        SegmentReading(literal + PARAM_PLACEHOLDER, literal + (":" + BeforeMatcher(name))));
  }

  lemma MixedReads(literal: string, name: string)
    requires |literal| > 0 && '[' !in literal
    requires |name| > 0 && ']' !in name && EscapeDigits(name).None?
    ensures Ruled(Mixed, literal + ("[" + name + "]"))
         == Reads(SegmentReading(literal + PARAM_PLACEHOLDER, literal + (":" + BeforeMatcher(name))))
  {
    var segment := literal + ("[" + name + "]");
    SpelledBracketAfter(literal, name, PlaceholderFor);
    SpelledBracketAfter(literal, name, ParamName);
    assert segment[0] == literal[0];
    MixedRules(segment);
  }

  lemma SpelledBracketAfter(literal: string, name: string, spelled: string -> string)
    requires '[' !in literal
    requires |name| > 0 && ']' !in name && EscapeDigits(name).None?
    ensures Brackets(literal + ("[" + name + "]")).0
    ensures Spell(literal + ("[" + name + "]"), spelled) == literal + spelled(name)
  {
    SpellBracket(name, spelled);
    SpelledAfter(literal, "[" + name + "]", spelled);
  }

  /** A segment with a parameter inside it that does not begin with a bracket is the business of that convention. */
  lemma MixedRules(segment: string)
    requires |segment| > 0 && segment[0] != '[' && Brackets(segment).0
    ensures Ruled(Mixed, segment) == Reads(SegmentReading(Spell(segment, PlaceholderFor), Spell(segment, ParamName)))
  {
    NoBracketNotWhole(segment);
    MixedRuledReads(segment);
    RuledMixed(segment);
  }

  lemma RuledMixed(segment: string)
    ensures Ruled(Mixed, segment) == MixedRuled(segment)
  {
  }

  lemma MixedRuledReads(segment: string)
    requires !IsWholeDynamic(segment) && Brackets(segment).0
    ensures MixedRuled(segment) == Reads(SegmentReading(Spell(segment, PlaceholderFor), Spell(segment, ParamName)))
  {
  }

  lemma NoBracketNotWhole(segment: string)
    requires |segment| > 0 && segment[0] != '['
    ensures !IsWholeDynamic(segment)
  {
    assert "["[0] == '[' && "[["[0] == '[';
  }

  lemma SpellBracket(name: string, spelled: string -> string)
    requires |name| > 0 && ']' !in name && EscapeDigits(name).None?
    ensures Brackets("[" + name + "]") == (true, false)
    ensures Spell("[" + name + "]", spelled) == spelled(name)
  {
    var bracket := "[" + name + "]";
    assert bracket == "[" + name + "]" + "";
    BracketHolds(name, "");
    assert Brackets("") == (false, false);
    ConcatEmpty(spelled(name), Spell("", spelled));
  }

  /** A literal in front of brackets stays as it is. */
  lemma {:induction false} SpelledAfter(literal: string, rest: string, name: string -> string)
    requires '[' !in literal
    ensures Brackets(literal + rest) == Brackets(rest)
    ensures Spell(literal + rest, name) == literal + Spell(rest, name)
  {
    if |literal| == 0 {
      ConcatEmpty(literal, rest);
      ConcatEmpty(literal, Spell(rest, name));
    } else {
      ConcatTail(literal, rest);
      assert literal[0] != '[';
      SpelledAfter(literal[1..], rest, name);
      assert literal == [literal[0]] + literal[1..];
      Associates([literal[0]], literal[1..], Spell(rest, name));
    }
  }

  /**
   * A dollar sign in front of a name reads as a parameter, and alone as a star,
   * unless an underscore ends it for an earlier convention.
   */
  lemma DollarIsParam(name: string, honoured: seq<Convention>)
    requires (forall i | 0 <= i < |name| :: IsWord(name[i])) && Dollar in honoured
    requires Pathless in honoured ==> !Ends(name, '_')
    ensures SegmentOf("$" + name, honoured, 0)
         == Some(if |name| == 0 then SegmentReading("*", "*") else SegmentReading(PARAM_PLACEHOLDER, ":" + name))
  {
    var segment := "$" + name;
    assert segment[0] == '$' && segment[1..] == name && (|name| > 0 ==> segment[|segment| - 1] == name[|name| - 1]);
    assert '[' !in segment;
    NoBracketInside(segment);
    assert CONVENTION_ORDER[..7] == [Group, Slot, Private, Pathless, Mixed, CatchAll, Param];
    forall k | 0 <= k < 7 && CONVENTION_ORDER[k] in honoured ensures Passes(CONVENTION_ORDER[k], segment) {
      assert CONVENTION_ORDER[k] == CONVENTION_ORDER[..7][k];
    }
    assert CONVENTION_ORDER[7] == Dollar;
    assert DollarName(segment) == Some((name, false));
    ConcatEmpty(":" + name, "");
    FirstClaims(segment, honoured, 7,
                if |name| == 0 then SegmentReading("*", "*") else SegmentReading(PARAM_PLACEHOLDER, ":" + name));
  }

  /** An underscore at the end is dropped, and the conventions after the pathless one read what is left. */
  lemma TrailingUnderscore(segment: string, honoured: seq<Convention>)
    requires |segment| > 1 && Ends(segment, '_') && !Starts(segment, '_') && Pathless in honoured
    requires Slot in honoured ==> !Starts(segment, '@')
    ensures SegmentOf(segment, honoured, 0) == SegmentOf(segment[..|segment| - 1], honoured, 4)
  {
    assert CONVENTION_ORDER[3] == Pathless;
    assert CONVENTION_ORDER[..3] == [Group, Slot, Private];
    forall k | 0 <= k < 3 && CONVENTION_ORDER[k] in honoured ensures Passes(CONVENTION_ORDER[k], segment) {
      assert CONVENTION_ORDER[k] == CONVENTION_ORDER[..3][k];
    }
    LeftTo(segment, honoured, 0, 3);
  }
}
