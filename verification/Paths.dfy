/**
 * Joining the pieces of a route's address, and the reach of middleware scoped to
 * a path (`shared.ts` and `call-routes.ts`).
 */
module Paths {
  import opened Seqs
  import opened Wrappers
  import opened Text

  function SegmentsOf(piece: Option<string>): seq<string> {
    if piece.Some? then Segments(piece.value) else []
  }

  /** The pieces given, each read as segments, one after another. */
  function AllSegments(pieces: seq<Option<string>>): seq<string> {
    if |pieces| == 0 then [] else SegmentsOf(pieces[0]) + AllSegments(pieces[1..])
  }

  lemma {:induction false} AllSegmentsAre(pieces: seq<Option<string>>)
    ensures AreSegments(AllSegments(pieces))
  {
    if |pieces| > 0 {
      AllSegmentsAre(pieces[1..]);
      if pieces[0].Some? {
        SegmentsAre(pieces[0].value);
      }
    }
  }

  /** The pieces that were given and say something, split at every slash. */
  function SplitPieces(pieces: seq<Option<string>>): seq<string> {
    if |pieces| == 0 then []
    else
      (if pieces[0].Some? && |pieces[0].value| > 0 then Split(pieces[0].value, '/') else []) +
      SplitPieces(pieces[1..])
  }

  /** Joins path pieces the way a router does; the root where nothing is left. */
  function JoinPath(pieces: seq<Option<string>>): string {
    var parts := NonEmpty(SplitPieces(pieces));
    if |parts| == 0 then "/" else "/" + Join(parts, '/')
  }

  /** A joined path is the rooted path of its pieces' segments, in the order given. */
  lemma {:induction false} JoinPathIsRooted(pieces: seq<Option<string>>)
    ensures JoinPath(pieces) == Rooted(AllSegments(pieces))
    ensures Segments(JoinPath(pieces)) == AllSegments(pieces)
  {
    PartsAreSegments(pieces);
    AllSegmentsAre(pieces);
    SegmentsRooted(AllSegments(pieces));
  }

  lemma {:induction false} PartsAreSegments(pieces: seq<Option<string>>)
    ensures NonEmpty(SplitPieces(pieces)) == AllSegments(pieces)
  {
    if |pieces| > 0 {
      PartsAreSegments(pieces[1..]);
      var first := if pieces[0].Some? && |pieces[0].value| > 0 then Split(pieces[0].value, '/') else [];
      NonEmptyConcat(first, SplitPieces(pieces[1..]));
    }
  }

  /** Joining a joined path again changes nothing: only the segments are ever read. */
  lemma {:induction false} JoinPathReadsSegments(pieces: seq<Option<string>>, others: seq<Option<string>>)
    requires AllSegments(pieces) == AllSegments(others)
    ensures JoinPath(pieces) == JoinPath(others)
  {
    JoinPathIsRooted(pieces);
    JoinPathIsRooted(others);
  }

  lemma {:induction false} AllSegmentsConcat(a: seq<Option<string>>, b: seq<Option<string>>)
    ensures AllSegments(a + b) == AllSegments(a) + AllSegments(b)
  {
    if |a| == 0 {
      ConcatEmpty(a, b);
    } else {
      ConcatTail(a, b);
      AllSegmentsConcat(a[1..], b);
      Associates(SegmentsOf(a[0]), AllSegments(a[1..]), AllSegments(b));
    }
  }

  /** Joining is associative: a part joined beforehand reads as its pieces in its place. */
  lemma {:induction false} JoinPathNests(
      before: seq<Option<string>>, inner: seq<Option<string>>, after: seq<Option<string>>)
    ensures JoinPath(before + [Some(JoinPath(inner))] + after) == JoinPath(before + inner + after)
  {
    JoinPathIsRooted(inner);
    var joined := [Some(JoinPath(inner))];
    AllSegmentsConcat(before + joined, after);
    AllSegmentsConcat(before, joined);
    AllSegmentsConcat(before + inner, after);
    AllSegmentsConcat(before, inner);
    assert AllSegments(joined) == AllSegments(inner) by {
      AllSegmentsFirst(JoinPath(inner), []);
      ConcatEmpty(joined, []);
    }
    JoinPathReadsSegments(before + [Some(JoinPath(inner))] + after, before + inner + after);
  }

  lemma AllSegmentsFirst(a: string, rest: seq<Option<string>>)
    ensures AllSegments([Some(a)] + rest) == Segments(a) + AllSegments(rest)
  {
    ConsTail(Some(a), rest);
  }

  /** The segments of two or three pieces, spelled out. */
  lemma AllSegmentsOf(a: string, b: string, c: string)
    ensures AllSegments([Some(a), Some(b)]) == Segments(a) + Segments(b)
    ensures AllSegments([Some(a), Some(b), Some(c)]) == Segments(a) + Segments(b) + Segments(c)
  {
    AllSegmentsTwo(a, b);
    AllSegmentsTwo(b, c);
    AllSegmentsFirst(a, [Some(b), Some(c)]);
    assert [Some(a)] + [Some(b), Some(c)] == [Some(a), Some(b), Some(c)];
    Associates(Segments(a), Segments(b), Segments(c));
  }

  lemma AllSegmentsTwo(a: string, b: string)
    ensures AllSegments([Some(a), Some(b)]) == Segments(a) + Segments(b)
  {
    AllSegmentsFirst(b, []);
    ConcatEmpty([Some(b)], []);
    ConcatEmpty(Segments(b), AllSegments([]));
    AllSegmentsFirst(a, [Some(b)]);
    assert [Some(a)] + [Some(b)] == [Some(a), Some(b)];
  }

  /** All stars at the end of a text dropped. */
  function CutStars(path: string): (cut: string)
    ensures cut <= path
    ensures cut == "" || cut[|cut| - 1] != '*'
    ensures path != "" && path[|path| - 1] == '*' <==> |cut| < |path|
  {
    if path != "" && path[|path| - 1] == '*' then CutStars(path[..|path| - 1]) else path
  }

  /** What is left to compare of an install's scope: no stars at its end, and then no one slash before them. */
  function BaseOf(at: string): (base: string) {
    var cut := CutStars(at);
    if cut == at then at
    else if cut != "" && cut[|cut| - 1] == '/' then cut[..|cut| - 1]
    else cut
  }

  predicate StartsWith(text: string, head: string) {
    head <= text
  }

  /** An install's scope covers a path that is its base or goes on from the base by a slash. */
  predicate Covers(at: Option<string>, path: string) {
    at.None? ||
    var base := BaseOf(at.value);
    base == "" || base == "/" || path == base || StartsWith(path, base + "/")
  }

  datatype Scope = Global | Prefix

  /** Classifies an install by whether its base excludes any path. */
  function ScopeOf(at: Option<string>): (scope: Scope)
    ensures scope.Global? <==> forall path :: Covers(at, path)
  {
    if at.None? then Global
    else
      var base := BaseOf(at.value);
      if base == "" || base == "/" then Global
      else
        assert !Covers(at, "");
        Prefix
  }

  /** A scope's segments with the stars at its end cut: the last segment's, or that segment where it is stars alone. */
  function CutScope(scope: seq<string>): seq<string> {
    if |scope| == 0 then []
    else
      var init, stem := scope[..|scope| - 1], CutStars(scope[|scope| - 1]);
      if |stem| == 0 then init else init + [stem]
  }

  /**
   * What scoped middleware covers, read in segments: exactly the addresses that
   * begin with every segment it names, the stars at its end cut. A segment is
   * never cut short, so `/admin` and `/admin*` do not cover `/administrator`.
   */
  lemma CoversBySegments(scope: seq<string>, path: seq<string>)
    requires AreSegments(scope) && AreSegments(path)
    ensures Covers(Some(Rooted(scope)), Rooted(path)) <==> CutScope(scope) <= path
  {
    if |scope| == 0 {
      assert Rooted(scope) == "/" && BaseOf("/") == "/";
    } else {
      BaseOfScope(scope);
      CutScopeAre(scope);
      if |CutScope(scope)| > 0 {
        BeginsBySegments(CutScope(scope), path);
      }
    }
  }

  lemma CutScopeAre(scope: seq<string>)
    requires AreSegments(scope)
    ensures AreSegments(CutScope(scope))
  {
    if |scope| > 0 {
      var last := scope[|scope| - 1];
      assert CutStars(last) <= last;
      assert '/' !in CutStars(last);
    }
  }

  /** A path is another or begins with it and a slash exactly when it begins with all its segments. */
  lemma BeginsBySegments(head: seq<string>, path: seq<string>)
    requires |head| > 0 && AreSegments(head) && AreSegments(path)
    ensures (Rooted(path) == Rooted(head) || StartsWith(Rooted(path), Rooted(head) + "/")) <==> head <= path
    ensures Rooted(head) != "" && Rooted(head) != "/"
  {
    var base := Rooted(head);
    assert head[0] != "";
    JoinIsLonger(head);
    SegmentsRooted(head);
    SegmentsRooted(path);
    if StartsWith(Rooted(path), base + "/") {
      var rest := Rooted(path)[|base| + 1..];
      assert Rooted(path) == base + "/" + rest;
      SegmentsConcat(base, rest);
    }
    if head <= path && head != path {
      RootedPrefix(head, path);
    }
  }

  lemma JoinIsLonger(segments: seq<string>)
    requires |segments| > 0 && segments[0] != ""
    ensures Join(segments, '/') != ""
  {
  }

  /** The fixed part of a scope is its segments with the stars cut, or nothing. */
  lemma BaseOfScope(scope: seq<string>)
    requires |scope| > 0 && AreSegments(scope)
    ensures if |CutScope(scope)| == 0 then BaseOf(Rooted(scope)) == ""
            else BaseOf(Rooted(scope)) == Rooted(CutScope(scope))
  {
    var init, last := scope[..|scope| - 1], scope[|scope| - 1];
    var stem := CutStars(last);
    assert scope == init + [last];
    RootedLast(init, last);
    StarsAtEnd(FrontOf(init), last);
    if |stem| > 0 {
      RootedLast(init, stem);
      if stem == last {
        assert CutScope(scope) == scope;
      }
    }
  }

  /** What stands in front of the last segment of a rooted path. */
  function FrontOf(init: seq<string>): (front: string)
    ensures |front| > 0 && front[|front| - 1] == '/'
    ensures front[..|front| - 1] == if |init| == 0 then "" else Rooted(init)
  {
    if |init| == 0 then "/" else Rooted(init) + "/"
  }

  lemma {:induction false} RootedLast(init: seq<string>, last: string)
    ensures Rooted(init + [last]) == FrontOf(init) + last
  {
    if |init| == 0 {
      assert init + [last] == [last];
    } else {
      JoinSnoc(init, last);
      assert Rooted(init + [last]) == Rooted(init) + "/" + last;
    }
  }

  lemma {:induction false} JoinSnoc(init: seq<string>, last: string)
    requires |init| > 0
    ensures Join(init + [last], '/') == Join(init, '/') + ['/'] + last
  {
    var all := init + [last];
    if |init| == 1 {
      assert all[1..] == [last];
    } else {
      assert all[1..] == init[1..] + [last];
      JoinSnoc(init[1..], last);
    }
  }

  /** Stars are cut of the last segment and never of what is in front of it. */
  lemma {:induction false} StarsAtEnd(front: string, last: string)
    requires |front| > 0 && front[|front| - 1] == '/'
    ensures CutStars(front + last) == front + CutStars(last)
    decreases |last|
  {
    if |last| == 0 {
      ConcatEmpty(front, last);
    } else if last[|last| - 1] == '*' {
      assert (front + last)[..|front + last| - 1] == front + last[..|last| - 1];
      StarsAtEnd(front, last[..|last| - 1]);
    }
  }

  lemma RootedTail(path: seq<string>)
    requires |path| > 1
    ensures Rooted(path) == "/" + path[0] + Rooted(path[1..])
  {
    Associates("/" + path[0], "/", Join(path[1..], '/'));
  }

  lemma PrefixBehind(head: string, text: string, front: string)
    requires StartsWith(text, front)
    ensures StartsWith(head + text, head + front)
  {
    assert text == front + text[|front|..];
    Associates(head, front, text[|front|..]);
  }

  lemma {:induction false} RootedPrefix(scope: seq<string>, path: seq<string>)
    requires scope != [] && scope < path
    ensures StartsWith(Rooted(path), Rooted(scope) + "/")
  {
    if |scope| == 1 {
      assert Join(path, '/') == scope[0] + ['/'] + Join(path[1..], '/');
      assert Rooted(path) == (Rooted(scope) + "/") + Join(path[1..], '/');
    } else {
      RootedPrefix(scope[1..], path[1..]);
      RootedTail(scope);
      RootedTail(path);
      PrefixBehind("/" + scope[0], Rooted(path[1..]), Rooted(scope[1..]) + "/");
      Associates("/" + scope[0], Rooted(scope[1..]), "/");
    }
  }
}
