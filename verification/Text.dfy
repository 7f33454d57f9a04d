/**
 * The two string operations every address in the repository is made with:
 * `split` at one character and `join` with it, and the empty-dropping reading of
 * a path that is built from them.
 */
module Text {
  import opened Seqs

  /** `text.split(at)`: always at least one piece. */
  function Split(text: string, at: char): (pieces: seq<string>)
    ensures |pieces| >= 1
  {
    if |text| == 0 then [""]
    else
      var rest := Split(text[1..], at);
      if text[0] == at then [""] + rest else [[text[0]] + rest[0]] + rest[1..]
  }

  /** `pieces.join(with)`. */
  function Join(pieces: seq<string>, with: char): string {
    if |pieces| == 0 then ""
    else if |pieces| == 1 then pieces[0]
    else pieces[0] + [with] + Join(pieces[1..], with)
  }

  /** Joining undoes splitting, and no piece holds the separator. */
  lemma {:induction false} JoinSplit(text: string, at: char)
    ensures Join(Split(text, at), at) == text
    ensures forall i | 0 <= i < |Split(text, at)| :: at !in Split(text, at)[i]
  {
    if |text| > 0 {
      JoinSplit(text[1..], at);
      var rest := Split(text[1..], at);
      var pieces := Split(text, at);
      if text[0] == at {
        assert pieces[1..] == rest;
      } else {
        assert pieces[1..] == rest[1..];
        assert Join(pieces, at) == [text[0]] + Join(rest, at);
      }
      assert text == [text[0]] + text[1..];
    }
  }

  /** Splitting at a separator undoes joining with it, where no piece holds it. */
  lemma {:induction false} SplitJoin(pieces: seq<string>, at: char)
    requires |pieces| >= 1
    requires forall i | 0 <= i < |pieces| :: at !in pieces[i]
    ensures Split(Join(pieces, at), at) == pieces
  {
    if |pieces| == 1 {
      SplitPlain(pieces[0], at);
    } else {
      SplitJoin(pieces[1..], at);
      SplitAfter(pieces[0], Join(pieces[1..], at), at);
      assert pieces[0] + ([at] + Join(pieces[1..], at)) == Join(pieces, at);
      assert [pieces[0]] + pieces[1..] == pieces;
    }
  }

  lemma {:induction false} SplitPlain(text: string, at: char)
    requires at !in text
    ensures Split(text, at) == [text]
  {
    if |text| > 0 {
      SplitPlain(text[1..], at);
      assert [text[0]] + text[1..] == text;
    }
  }

  /** What stands before the first separator is the first piece. */
  lemma {:induction false} SplitAfter(head: string, tail: string, at: char)
    requires at !in head
    ensures Split(head + ([at] + tail), at) == [head] + Split(tail, at)
  {
    if |head| == 0 {
      assert head + ([at] + tail) == [at] + tail;
      assert ([at] + tail)[1..] == tail;
    } else {
      SplitAfter(head[1..], tail, at);
      assert (head + ([at] + tail))[1..] == head[1..] + ([at] + tail);
      assert [head[0]] + head[1..] == head;
      assert ([head[1..]] + Split(tail, at))[1..] == Split(tail, at);
    }
  }

  /** A separator anywhere splits the text into the pieces of both sides. */
  lemma {:induction false} SplitAt(left: string, right: string, at: char)
    ensures Split(left + ([at] + right), at) == Split(left, at) + Split(right, at)
  {
    var whole := left + ([at] + right);
    if |left| == 0 {
      assert whole == [at] + right;
      assert whole[1..] == right;
    } else {
      SplitAt(left[1..], right, at);
      assert whole[1..] == left[1..] + ([at] + right);
      assert whole[0] == left[0];
      PiecesUnder(left, Split(left[1..], at), Split(right, at), at);
    }
  }

  /** How one more character in front changes the pieces does not depend on later pieces. */
  lemma PiecesUnder(left: string, first: seq<string>, second: seq<string>, at: char)
    requires left != "" && |first| >= 1
    ensures (if left[0] == at then [""] + (first + second)
            else [[left[0]] + (first + second)[0]] + (first + second)[1..])
         == (if left[0] == at then [""] + first else [[left[0]] + first[0]] + first[1..]) + second
  {
    assert (first + second)[1..] == first[1..] + second;
    assert (first + second)[0] == first[0];
  }

  /** The pieces that are not empty. */
  function NonEmpty(pieces: seq<string>): seq<string> {
    if |pieces| == 0 then []
    else if |pieces[0]| == 0 then NonEmpty(pieces[1..])
    else [pieces[0]] + NonEmpty(pieces[1..])
  }

  lemma {:induction false} NonEmptyConcat(a: seq<string>, b: seq<string>)
    ensures NonEmpty(a + b) == NonEmpty(a) + NonEmpty(b)
  {
    if |a| == 0 {
      ConcatEmpty(a, b);
    } else {
      ConcatTail(a, b);
      NonEmptyConcat(a[1..], b);
      Associates([a[0]], NonEmpty(a[1..]), NonEmpty(b));
    }
  }

  lemma {:induction false} NonEmptyKeeps(pieces: seq<string>)
    ensures forall i | 0 <= i < |NonEmpty(pieces)| :: NonEmpty(pieces)[i] != "" && NonEmpty(pieces)[i] in pieces
  {
    if |pieces| > 0 {
      NonEmptyKeeps(pieces[1..]);
    }
  }

  lemma {:induction false} NonEmptyAll(pieces: seq<string>)
    requires forall i | 0 <= i < |pieces| :: pieces[i] != ""
    ensures NonEmpty(pieces) == pieces
  {
    if |pieces| > 0 {
      NonEmptyAll(pieces[1..]);
    }
  }

  /** The segments a path is read as: what stands between its slashes, empties dropped. */
  function Segments(path: string): seq<string> {
    NonEmpty(Split(path, '/'))
  }

  /** What a list of segments is: none empty, none holding a slash. */
  predicate AreSegments(segments: seq<string>) {
    forall i | 0 <= i < |segments| :: segments[i] != "" && '/' !in segments[i]
  }

  lemma {:induction false} SegmentsAre(path: string)
    ensures AreSegments(Segments(path))
  {
    JoinSplit(path, '/');
    NonEmptyKeeps(Split(path, '/'));
  }

  /** A path written with a slash in front and one between its segments. */
  function Rooted(segments: seq<string>): string {
    "/" + Join(segments, '/')
  }

  /** A rooted path reads back as the segments it was written with. */
  lemma {:induction false} SegmentsRooted(segments: seq<string>)
    requires AreSegments(segments)
    ensures Segments(Rooted(segments)) == segments
  {
    var joined := Join(segments, '/');
    assert Rooted(segments) == "" + (['/'] + joined);
    SplitAfter("", joined, '/');
    NonEmptyConcat([""], Split(joined, '/'));
    if |segments| == 0 {
      assert Split(joined, '/') == [""];
    } else {
      SplitJoin(segments, '/');
    }
    NonEmptyAll(segments);
  }

  /** Two paths with a slash between them read as the segments of one and then of the other. */
  lemma {:induction false} SegmentsConcat(left: string, right: string)
    ensures Segments(left + "/" + right) == Segments(left) + Segments(right)
  {
    assert left + "/" + right == left + (['/'] + right);
    SplitAt(left, right, '/');
    NonEmptyConcat(Split(left, '/'), Split(right, '/'));
  }

  /** White space, as `trim` and `\s` know it. */
  predicate IsSpace(c: char) {
    c == ' ' || '\t' <= c <= '\r' || c == '\U{A0}' || c == '\U{1680}' || '\U{2000}' <= c <= '\U{200A}'
    || c == '\U{2028}' || c == '\U{2029}' || c == '\U{202F}' || c == '\U{205F}' || c == '\U{3000}' || c == '\U{FEFF}'
  }
}
