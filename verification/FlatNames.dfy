/**
 * A flat route name read as its segments (`dottedSegments` in `fs-routes.ts`):
 * split at each dot outside brackets, the brackets of escaped runs dropped.
 */
module FlatNames {
  import opened Wrappers
  import opened Seqs

  // ---- the reading ----

  /** How far a bracket opened here runs, its closing bracket included; none where nothing closes it. */
  function Closed(name: string): (length: Option<nat>)
    ensures length.Some? ==> 2 <= length.value <= |name| && name[0] == '[' && name[length.value - 1] == ']'
    ensures length.Some? ==> ']' !in name[..length.value - 1]
  {
    if |name| == 0 || name[0] != '[' then None
    else
      var at := FirstClose(name);
      if at == |name| then None else Some(at + 1)
  }

  /** Where the first closing bracket is, or the length. */
  function FirstClose(text: string): (at: nat)
    ensures at <= |text| && ']' !in text[..at]
    ensures at < |text| ==> text[at] == ']'
  {
    if |text| == 0 || text[0] == ']' then 0
    else
      var rest := FirstClose(text[1..]);
      assert text[..rest + 1] == [text[0]] + text[1..][..rest];
      rest + 1
  }

  /** How many characters from here on are one segment: bracketed runs whole, up to a dot. */
  function RunLength(name: string): (length: nat)
    ensures length <= |name|
    decreases |name|
  {
    if |name| == 0 then 0
    else if Closed(name).Some? then Closed(name).value + RunLength(name[Closed(name).value..])
    else if name[0] != '.' then 1 + RunLength(name[1..])
    else 0
  }

  /** A segment without the brackets of its escaped runs. */
  function Unbracketed(part: string): string
    decreases |part|
  {
    if |part| == 0 then ""
    else if Closed(part).Some? then
      var length := Closed(part).value;
      part[1..length - 1] + Unbracketed(part[length..])
    else [part[0]] + Unbracketed(part[1..])
  }

  function DottedSegments(name: string): seq<string>
    decreases |name|
  {
    if |name| == 0 then []
    else
      var length := RunLength(name);
      if length == 0 then DottedSegments(name[1..])
      else [Unbracketed(name[..length])] + DottedSegments(name[length..])
  }

  // ---- writing a name ----

  /** A character written as it is, or a run of them inside brackets. */
  datatype Piece = Plain(c: char) | Escaped(text: string)

  /** A piece that can be written: a dot or an opening bracket only inside brackets, a closing one nowhere in them. */
  predicate Writable(piece: Piece) {
    match piece
    case Plain(c) => c != '.' && c != '['
    case Escaped(text) => ']' !in text
  }

  predicate AllWritable(pieces: seq<Piece>) {
    forall k | 0 <= k < |pieces| :: Writable(pieces[k])
  }

  function Spelled(pieces: seq<Piece>): string {
    if |pieces| == 0 then ""
    else (if pieces[0].Plain? then [pieces[0].c] else "[" + pieces[0].text + "]") + Spelled(pieces[1..])
  }

  function Meant(pieces: seq<Piece>): string {
    if |pieces| == 0 then ""
    else (if pieces[0].Plain? then [pieces[0].c] else pieces[0].text) + Meant(pieces[1..])
  }

  /** Segments written one after another with a dot between. */
  function Written(segments: seq<seq<Piece>>): string {
    if |segments| == 0 then ""
    else Spelled(segments[0]) + (if |segments| == 1 then "" else "." + Written(segments[1..]))
  }

  function AllMeant(segments: seq<seq<Piece>>): seq<string> {
    seq(|segments|, i requires 0 <= i < |segments| => Meant(segments[i]))
  }

  // ---- reading undoes writing ----

  lemma {:induction false} FirstCloseAt(text: string, rest: string)
    requires ']' !in text
    ensures FirstClose(text + ("]" + rest)) == |text|
  {
    var whole := text + ("]" + rest);
    if |text| > 0 {
      ConcatTail(text, "]" + rest);
      FirstCloseAt(text[1..], rest);
    } else {
      ConcatEmpty(text, "]" + rest);
    }
  }

  /** An escaped run is read whole, whatever follows. */
  lemma EscapedCloses(text: string, rest: string)
    requires ']' !in text
    ensures Closed("[" + text + "]" + rest) == Some(|text| + 2)
    ensures ("[" + text + "]" + rest)[1..|text| + 1] == text
    ensures ("[" + text + "]" + rest)[|text| + 2..] == rest
  {
    var whole := "[" + text + "]" + rest;
    assert whole == (['['] + text) + ("]" + rest);
    FirstCloseAt(['['] + text, rest);
  }

  /** The pieces of one segment are one run, ended by a dot or the end, and read as what they mean. */
  lemma {:induction false} PiecesRead(pieces: seq<Piece>, rest: string)
    requires AllWritable(pieces)
    requires |rest| == 0 || rest[0] == '.'
    ensures RunLength(Spelled(pieces) + rest) == |Spelled(pieces)|
    ensures Unbracketed(Spelled(pieces)) == Meant(pieces)
  {
    if |pieces| == 0 {
      ConcatEmpty(Spelled(pieces), rest);
    } else {
      PiecesRead(pieces[1..], rest);
      var more := Spelled(pieces[1..]);
      match pieces[0] {
        case Plain(c) =>
          ConcatTail(Spelled(pieces), rest);
          ConsTail(c, more);
        case Escaped(text) =>
          EscapedCloses(text, more);
          EscapedCloses(text, more + rest);
          Associates("[" + text + "]", more, rest);
          assert Spelled(pieces) + rest == "[" + text + "]" + (more + rest);
          assert Spelled(pieces) == "[" + text + "]" + more;
      }
    }
  }

  lemma SpelledSome(pieces: seq<Piece>)
    requires |pieces| > 0
    ensures |Spelled(pieces)| > 0
  {
  }

  /** A written segment is read whole, and what stands behind it is read on its own. */
  lemma SegmentRead(pieces: seq<Piece>, tail: string)
    requires |pieces| > 0 && AllWritable(pieces)
    requires |tail| == 0 || tail[0] == '.'
    ensures DottedSegments(Spelled(pieces) + tail) == [Meant(pieces)] + DottedSegments(tail)
  {
    SpelledSome(pieces);
    PiecesRead(pieces, tail);
    var written := Spelled(pieces) + tail;
    assert written[..|Spelled(pieces)|] == Spelled(pieces) && written[|Spelled(pieces)|..] == tail;
  }

  /** A dot between segments adds none. */
  lemma DotRead(rest: string)
    ensures DottedSegments("." + rest) == DottedSegments(rest)
  {
    ConsTail('.', rest);
    assert RunLength("." + rest) == 0;
  }

  /**
   * Any list of segments, each written as at least one piece, reads back as the
   * texts the pieces mean: a dot is literal exactly inside brackets.
   */
  lemma {:induction false} WrittenReadsBack(segments: seq<seq<Piece>>)
    requires forall i | 0 <= i < |segments| :: |segments[i]| > 0 && AllWritable(segments[i])
    ensures DottedSegments(Written(segments)) == AllMeant(segments)
  {
    if |segments| > 0 {
      var first, rest := segments[0], segments[1..];
      var tail := if |segments| == 1 then "" else "." + Written(rest);
      SegmentRead(first, tail);
      DotRead(Written(rest));
      WrittenReadsBack(rest);
      AllMeantFrom(segments);
    }
  }

  lemma AllMeantFrom(segments: seq<seq<Piece>>)
    requires |segments| > 0
    ensures AllMeant(segments) == [Meant(segments[0])] + AllMeant(segments[1..])
  {
  }

  // ---- every segment in brackets ----

  function Bracketed(segments: seq<string>): string {
    if |segments| == 0 then ""
    else "[" + segments[0] + "]" + (if |segments| == 1 then "" else "." + Bracketed(segments[1..]))
  }

  function OnePieceEach(segments: seq<string>): seq<seq<Piece>> {
    seq(|segments|, i requires 0 <= i < |segments| => [Escaped(segments[i])])
  }

  lemma {:induction false} BracketedIsWritten(segments: seq<string>)
    ensures Bracketed(segments) == Written(OnePieceEach(segments))
  {
    if |segments| > 0 {
      BracketedIsWritten(segments[1..]);
      var pieces := OnePieceEach(segments);
      assert pieces[1..] == OnePieceEach(segments[1..]);
      assert pieces[0][1..] == [];
      assert Spelled(pieces[0]) == "[" + segments[0] + "]" + "";
      ConcatEmpty("[" + segments[0] + "]", "");
    }
  }

  /** Reading undoes bracketing: any segments free of a closing bracket read back as themselves. */
  lemma BracketedReadsBack(segments: seq<string>)
    requires forall i | 0 <= i < |segments| :: ']' !in segments[i]
    ensures DottedSegments(Bracketed(segments)) == segments
  {
    var pieces := OnePieceEach(segments);
    BracketedIsWritten(segments);
    WrittenReadsBack(pieces);
    forall i | 0 <= i < |segments| ensures Meant(pieces[i]) == segments[i] {
      assert pieces[i][1..] == [];
      ConcatEmpty(segments[i], Meant(pieces[i][1..]));
    }
    assert AllMeant(pieces) == segments;
  }
}
