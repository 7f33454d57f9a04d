/**
 * A path pattern compiled to a test on a path (`pathPatternTest` in
 * `fs-routes.ts`), against what its segments say.
 */
module PathPatterns {
  import opened Wrappers
  import opened Seqs
  import opened Text

  /** The pieces of regular expression the compiler writes: a character, `.*` and `[^/]+`. */
  datatype Item = One(c: char) | AnyRun | PartRun

  type Expression = seq<Item>

  // ---- the compiler ----

  /** Characters of a full regular expression, which is not read. */
  predicate Unreadable(c: char) {
    c == '(' || c == ')' || c == '|' || c == '?' || c == '!'
  }

  function Starred(segment: string): Expression {
    if |segment| == 0 then [] else [if segment[0] == '*' then AnyRun else One(segment[0])] + Starred(segment[1..])
  }

  function OfSegment(segment: string): Expression {
    if |segment| == 0 then []
    else if segment[0] == ':' then [if segment[|segment| - 1] == '*' then AnyRun else PartRun]
    else if segment == "*" then [AnyRun]
    else Starred(segment)
  }

  function OfSegments(segments: seq<string>): Expression {
    if |segments| == 0 then []
    else if |segments| == 1 then OfSegment(segments[0])
    else OfSegment(segments[0]) + [One('/')] + OfSegments(segments[1..])
  }

  function Compiled(pattern: string): Option<Expression> {
    if |pattern| == 0 || pattern[0] != '/' then None
    else if exists i | 0 <= i < |pattern| :: Unreadable(pattern[i]) then None
    else Some(OfSegments(Split(pattern, '/')))
  }

  // ---- what an expression accepts ----

  /** Line breaks are the characters `.` does not take. */
  predicate OnOneLine(text: string) {
    '\n' !in text && '\r' !in text && '\U{2028}' !in text && '\U{2029}' !in text
  }

  predicate Takes(item: Item, text: string) {
    match item
    case One(c) => text == [c]
    case AnyRun => OnOneLine(text)
    case PartRun => |text| > 0 && '/' !in text
  }

  /** The whole text splits into what the items take, in order. */
  predicate Accepts(expression: Expression, text: string)
    decreases |expression|
  {
    if |expression| == 0 then |text| == 0
    else exists k | 0 <= k <= |text| :: Takes(expression[0], text[..k]) && Accepts(expression[1..], text[k..])
  }

  /** A pattern's test on a path: none where the pattern is not read. */
  predicate Covers(pattern: string, path: string) {
    Compiled(pattern).Some? && Accepts(Compiled(pattern).value, path)
  }

  // ---- what the segments say ----

  /** What one segment of a pattern stands for. */
  predicate Says(segment: string, text: string) {
    if |segment| > 0 && segment[0] == ':' then
      if segment[|segment| - 1] == '*' then OnOneLine(text) else |text| > 0 && '/' !in text
    else Wild(segment, text)
  }

  /** The segment itself, with any run of characters on one line for each of its stars. */
  predicate Wild(segment: string, text: string)
    decreases |segment|
  {
    if |segment| == 0 then |text| == 0
    else if segment[0] == '*' then exists k | 0 <= k <= |text| :: OnOneLine(text[..k]) && Wild(segment[1..], text[k..])
    else |text| > 0 && segment[0] == text[0] && Wild(segment[1..], text[1..])
  }

  predicate EachSays(segments: seq<string>, texts: seq<string>) {
    |segments| == |texts| && forall i | 0 <= i < |texts| :: Says(segments[i], texts[i])
  }

  // ---- the compiler is right ----

  lemma AcceptsFrom(item: Item, rest: Expression, s: string, t: string)
    requires Takes(item, s) && Accepts(rest, t)
    ensures Accepts([item] + rest, s + t)
  {
    ConsTail(item, rest);
    assert (s + t)[..|s|] == s && (s + t)[|s|..] == t;
  }

  lemma {:induction false} AcceptsTogether(a: Expression, b: Expression, s: string, t: string)
    requires Accepts(a, s) && Accepts(b, t)
    ensures Accepts(a + b, s + t)
    decreases |a|
  {
    if |a| == 0 {
      ConcatEmpty(a, b);
      ConcatEmpty(s, t);
    } else {
      ConcatTail(a, b);
      var k :| 0 <= k <= |s| && Takes(a[0], s[..k]) && Accepts(a[1..], s[k..]);
      AcceptsTogether(a[1..], b, s[k..], t);
      AcceptsFrom(a[0], a[1..] + b, s[..k], s[k..] + t);
      TogetherAgain(s, k, t);
      HeadTail(a + b);
    }
  }

  lemma {:induction false} AcceptsApart(a: Expression, b: Expression, text: string) returns (s: string, t: string)
    requires Accepts(a + b, text)
    ensures text == s + t && Accepts(a, s) && Accepts(b, t)
    decreases |a|
  {
    if |a| == 0 {
      ConcatEmpty(a, b);
      return "", text;
    }
    ConcatTail(a, b);
    var first :| 0 <= first <= |text| && Takes(a[0], text[..first]) && Accepts((a + b)[1..], text[first..]);
    var more, rest := AcceptsApart(a[1..], b, text[first..]);
    AcceptsFrom(a[0], a[1..], text[..first], more);
    HeadTail(a);
    Associates(text[..first], more, rest);
    assert text == text[..first] + text[first..];
    return text[..first] + more, rest;
  }

  lemma OneItem(item: Item, text: string)
    ensures Accepts([item], text) <==> Takes(item, text)
  {
    assert [item][1..] == [];
    if Takes(item, text) {
      assert text[..|text|] == text && text[|text|..] == "";
    }
    if Accepts([item], text) {
      var k :| 0 <= k <= |text| && Takes([item][0], text[..k]) && Accepts([item][1..], text[k..]);
      assert text[..k] == text;
    }
  }

  lemma {:induction false} StarredSays(segment: string, text: string)
    ensures Accepts(Starred(segment), text) <==> Wild(segment, text)
    decreases |segment|
  {
    if |segment| > 0 {
      var expression := Starred(segment);
      ConsTail(expression[0], Starred(segment[1..]));
      forall k | 0 <= k <= |text| ensures Accepts(Starred(segment[1..]), text[k..]) <==> Wild(segment[1..], text[k..]) {
        StarredSays(segment[1..], text[k..]);
      }
      if segment[0] != '*' && |text| > 0 {
        assert text[..1] == [text[0]];
        if Wild(segment, text) {
          assert Takes(expression[0], text[..1]);
        }
      }
    }
  }

  lemma SegmentSays(segment: string, text: string)
    ensures Accepts(OfSegment(segment), text) <==> Says(segment, text)
  {
    if |segment| > 0 {
      if segment[0] == ':' {
        OneItem(if segment[|segment| - 1] == '*' then AnyRun else PartRun, text);
      } else {
        StarredSays(segment, text);
        if segment == "*" {
          assert Starred("*"[1..]) == [];
          assert Starred(segment) == [AnyRun];
        }
      }
    }
  }

  lemma {:induction false} SegmentsAccept(segments: seq<string>, texts: seq<string>)
    requires |segments| > 0 && EachSays(segments, texts)
    ensures Accepts(OfSegments(segments), Join(texts, '/'))
    decreases |segments|
  {
    SegmentSays(segments[0], texts[0]);
    if |segments| > 1 {
      SegmentsAccept(segments[1..], texts[1..]);
      OneItem(One('/'), ['/']);
      AcceptsTogether(OfSegment(segments[0]), [One('/')], texts[0], ['/']);
      AcceptsTogether(OfSegment(segments[0]) + [One('/')], OfSegments(segments[1..]), texts[0] + ['/'],
          Join(texts[1..], '/'));
    }
  }

  lemma {:induction false} SegmentsSplit(segments: seq<string>, path: string) returns (texts: seq<string>)
    requires |segments| > 0 && Accepts(OfSegments(segments), path)
    ensures EachSays(segments, texts) && Join(texts, '/') == path
    decreases |segments|
  {
    if |segments| == 1 {
      SegmentSays(segments[0], path);
      return [path];
    }
    var front, back := AcceptsApart(OfSegment(segments[0]) + [One('/')], OfSegments(segments[1..]), path);
    var first, slash := AcceptsApart(OfSegment(segments[0]), [One('/')], front);
    OneItem(One('/'), slash);
    SegmentSays(segments[0], first);
    var rest := SegmentsSplit(segments[1..], back);
    texts := [first] + rest;
    ConsTail(first, rest);
  }

  /**
   * A pattern that is read covers a path exactly when the path is made of texts
   * its segments stand for, slash by slash.
   */
  lemma CoversWhatItSays(pattern: string, path: string)
    requires Compiled(pattern).Some?
    ensures Covers(pattern, path) <==> exists texts :: EachSays(Split(pattern, '/'), texts) && Join(texts, '/') == path
  {
    var segments := Split(pattern, '/');
    if Accepts(OfSegments(segments), path) {
      var texts := SegmentsSplit(segments, path);
    }
    if texts :| EachSays(segments, texts) && Join(texts, '/') == path {
      SegmentsAccept(segments, texts);
    }
  }

  // ---- without a star ----

  /** What one segment without a star stands for: itself, or a parameter's one non-empty segment. */
  predicate SegmentFits(segment: string, text: string) {
    if |segment| > 0 && segment[0] == ':' then |text| > 0 else segment == text
  }

  lemma {:induction false} PlainWild(segment: string, text: string)
    requires '*' !in segment
    ensures Wild(segment, text) <==> segment == text
    decreases |segment|
  {
    if |segment| > 0 && |text| > 0 {
      assert segment[0] in segment;
      PlainWild(segment[1..], text[1..]);
      assert segment == [segment[0]] + segment[1..] && text == [text[0]] + text[1..];
    }
  }

  lemma PlainSays(segment: string, text: string)
    requires '*' !in segment && '/' !in segment
    ensures Says(segment, text) <==> SegmentFits(segment, text) && '/' !in text
  {
    if |segment| > 0 && segment[0] == ':' {
      assert segment[|segment| - 1] in segment;
    } else {
      PlainWild(segment, text);
    }
  }

  /**
   * A pattern without a star covers a path exactly when both have equally many
   * segments, each literal the same and each parameter not empty: a parameter
   * never crosses a slash.
   */
  lemma StarlessCovers(pattern: string, path: string)
    requires Compiled(pattern).Some? && '*' !in pattern
    ensures Covers(pattern, path)
       <==> |Split(pattern, '/')| == |Split(path, '/')|
            && forall i | 0 <= i < |Split(path, '/')| :: SegmentFits(Split(pattern, '/')[i], Split(path, '/')[i])
  {
    var segments, pieces := Split(pattern, '/'), Split(path, '/');
    CoversWhatItSays(pattern, path);
    JoinSplit(pattern, '/');
    JoinSplit(path, '/');
    StarlessPieces(segments);
    forall i, text | 0 <= i < |segments|
      ensures Says(segments[i], text) <==> SegmentFits(segments[i], text) && '/' !in text {
      PlainSays(segments[i], text);
    }
    if texts :| EachSays(segments, texts) && Join(texts, '/') == path {
      SplitJoin(texts, '/');
    }
    if |segments| == |pieces| && forall i | 0 <= i < |pieces| :: SegmentFits(segments[i], pieces[i]) {
      assert EachSays(segments, pieces);
    }
  }

  /** The pieces of a text without a star hold none. */
  lemma {:induction false} StarlessPieces(pieces: seq<string>)
    requires |pieces| > 0 && '*' !in Join(pieces, '/')
    ensures forall i | 0 <= i < |pieces| :: '*' !in pieces[i]
  {
    if |pieces| > 1 {
      StarlessPieces(pieces[1..]);
    }
  }
}
