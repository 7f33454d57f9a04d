/**
 * The channels a template addresses (`holeValuesOf`, `patternOf` and the
 * template branch of `resolveChannelName` in `channel-name.ts`), against the
 * strings the template can be.
 */
module ChannelNames {
  import opened Wrappers
  import opened Seqs
  import opened Text

  /** What a hole evaluates to, the closed set of what it can hold, or neither. */
  datatype Hole = Evaluated(text: string) | Choices(texts: seq<string>) | Unread

  datatype Span = Span(hole: Hole, tail: string)

  datatype Template = Template(head: string, spans: seq<Span>)

  /** How many names one address may stand for. */
  const MOST_NAMES := 12

  datatype Resolved = Resolved(name: string, names: seq<string>, template: bool)

  /** What a hole contributes to the names. */
  function PiecesOf(hole: Hole): seq<string> {
    match hole
    case Evaluated(text) => [text]
    case Choices(texts) => texts
    case Unread => ["*"]
  }

  // ---- the strings a template can be ----

  predicate Holds(hole: Hole, text: string) {
    match hole
    case Evaluated(value) => text == value
    case Choices(texts) => text in texts
    case Unread => true
  }

  /** What the holes hold in one run. */
  predicate Fills(spans: seq<Span>, filling: seq<string>) {
    |filling| == |spans| && forall i | 0 <= i < |spans| :: Holds(spans[i].hole, filling[i])
  }

  function Filled(template: Template, filling: seq<string>): string
    requires |filling| == |template.spans|
    decreases |filling|
  {
    if |filling| == 0 then template.head
    else
      var last := |filling| - 1;
      Filled(Template(template.head, template.spans[..last]), filling[..last]) + filling[last]
          + template.spans[last].tail
  }

  // ---- the names ----

  /** Every name followed by every piece and the text after it. */
  function Extended(names: seq<string>, pieces: seq<string>, tail: string): seq<string> {
    if |names| == 0 then [] else Extended(names[..|names| - 1], pieces, tail) + Each(names[|names| - 1], pieces, tail)
  }

  function Each(name: string, pieces: seq<string>, tail: string): seq<string> {
    seq(|pieces|, i requires 0 <= i < |pieces| => name + pieces[i] + tail)
  }

  /** The names the first spans of a template multiply to, or none past the most there may be. */
  function NamesOf(template: Template): Option<seq<string>>
    decreases |template.spans|
  {
    if |template.spans| == 0 then Some([template.head])
    else
      var last := template.spans[|template.spans| - 1];
      var before := NamesOf(Template(template.head, template.spans[..|template.spans| - 1]));
      var pieces := PiecesOf(last.hole);
      if before.None? || |before.value| * |pieces| > MOST_NAMES then None
      else Some(Extended(before.value, pieces, last.tail))
  }

  /** The one pattern a template comes to: its literals, with a star for each hole that has no value. */
  function PatternOf(template: Template): string
    decreases |template.spans|
  {
    if |template.spans| == 0 then template.head
    else
      var last := template.spans[|template.spans| - 1];
      var piece := if last.hole.Evaluated? then last.hole.text else "*";
      PatternOf(Template(template.head, template.spans[..|template.spans| - 1])) + piece + last.tail
  }

  /** Characters that say nothing: the star of a hole, and what trimming takes off. */
  predicate SaysNothing(c: char) {
    c == '*' || IsSpace(c)
  }

  predicate NamesNothing(pattern: string) {
    forall i | 0 <= i < |pattern| :: SaysNothing(pattern[i])
  }

  predicate AnyStar(names: seq<string>) {
    exists i | 0 <= i < |names| :: '*' in names[i]
  }

  /** What a template resolves to, given its names and its pattern. */
  function Resolution(names: Option<seq<string>>, pattern: string): Option<Resolved> {
    var unique := if names.Some? then Some(Unique(names.value)) else None;
    var name := if unique.Some? && |unique.value| == 1 then unique.value[0] else pattern;
    if NamesNothing(name) then None
    else
      var reached := if unique.Some? then unique.value else [name];
      Some(Resolved(name, reached, AnyStar(reached)))
  }

  method ResolveTemplate(template: Template) returns (resolved: Option<Resolved>)
    ensures resolved == Resolution(NamesOf(template), PatternOf(template))
  {
    var spans := template.spans;
    var names := Some([template.head]);
    for index := 0 to |spans|
      invariant names == NamesOf(Template(template.head, spans[..index]))
    {
      TakeMore(spans, index);
      var pieces := PiecesOf(spans[index].hole);
      if names.None? || |names.value| * |pieces| > MOST_NAMES {
        names := None;
        continue;
      }
      names := Some(Extended(names.value, pieces, spans[index].tail));
    }
    assert Template(template.head, spans[..|spans|]) == template;
    if names.Some? {
      names := Some(Unique(names.value));
    }
    var pattern := if names.Some? && |names.value| == 1 then names.value[0] else PatternOf(template);
    if NamesNothing(pattern) {
      return None;
    }
    var reached := if names.Some? then names.value else [pattern];
    return Some(Resolved(pattern, reached, AnyStar(reached)));
  }

  // ---- what the names are ----

  lemma {:induction false} ExtendedHolds(names: seq<string>, pieces: seq<string>, tail: string)
    ensures |Extended(names, pieces, tail)| == |names| * |pieces|
    ensures forall n, p :: n in names && p in pieces ==> n + p + tail in Extended(names, pieces, tail)
    ensures forall x ::
              x in Extended(names, pieces, tail) ==> exists n, p :: n in names && p in pieces && x == n + p + tail
  {
    if |names| > 0 {
      var init, last := names[..|names| - 1], names[|names| - 1];
      ExtendedHolds(init, pieces, tail);
      assert names == init + [last];
      var each := Each(last, pieces, tail);
      forall p | p in pieces ensures last + p + tail in each {
        var i :| 0 <= i < |pieces| && pieces[i] == p;
        assert each[i] == last + p + tail;
      }
      forall x | x in each ensures exists p :: p in pieces && x == last + p + tail {
        var i :| 0 <= i < |each| && each[i] == x;
        assert pieces[i] in pieces;
      }
      ProductMore(|init|, |pieces|);
    }
  }

  /** What a filling with the pieces of the holes comes to is one of the names, and nothing else is. */
  predicate Pieced(spans: seq<Span>, filling: seq<string>) {
    |filling| == |spans| && forall i | 0 <= i < |spans| :: filling[i] in PiecesOf(spans[i].hole)
  }

  lemma {:induction false} PiecedIsNamed(template: Template, filling: seq<string>)
    requires NamesOf(template).Some? && Pieced(template.spans, filling)
    ensures Filled(template, filling) in NamesOf(template).value
    decreases |filling|
  {
    if |filling| > 0 {
      var last := |filling| - 1;
      var before := Template(template.head, template.spans[..last]);
      PiecedIsNamed(before, filling[..last]);
      ExtendedHolds(NamesOf(before).value, PiecesOf(template.spans[last].hole), template.spans[last].tail);
    }
  }

  lemma {:induction false} NamedIsPieced(template: Template, name: string) returns (filling: seq<string>)
    requires NamesOf(template).Some? && name in NamesOf(template).value
    ensures Pieced(template.spans, filling) && Filled(template, filling) == name
    decreases |template.spans|
  {
    filling := [];
    if |template.spans| > 0 {
      var last := |template.spans| - 1;
      var before := Template(template.head, template.spans[..last]);
      var span := template.spans[last];
      ExtendedHolds(NamesOf(before).value, PiecesOf(span.hole), span.tail);
      var n, p :| n in NamesOf(before).value && p in PiecesOf(span.hole) && name == n + p + span.tail;
      var start := NamedIsPieced(before, n);
      filling := start + [p];
      assert filling[..last] == start;
    }
  }

  /** How many names the first spans multiply to. */
  function Count(spans: seq<Span>): nat {
    if |spans| == 0 then 1 else Count(spans[..|spans| - 1]) * |PiecesOf(spans[|spans| - 1].hole)|
  }

  /** The counts along the template never pass the most there may be. */
  predicate Countable(spans: seq<Span>)
    decreases |spans|
  {
    Count(spans) <= MOST_NAMES && (|spans| == 0 || Countable(spans[..|spans| - 1]))
  }

  lemma {:induction false} NamesWithinCap(template: Template)
    ensures NamesOf(template).Some? <==> Countable(template.spans)
    ensures NamesOf(template).Some? ==> |NamesOf(template).value| == Count(template.spans)
    decreases |template.spans|
  {
    var spans := template.spans;
    if |spans| > 0 {
      var last := |spans| - 1;
      var before := Template(template.head, spans[..last]);
      NamesWithinCap(before);
      if NamesOf(before).Some? {
        ExtendedHolds(NamesOf(before).value, PiecesOf(spans[last].hole), spans[last].tail);
      }
    }
  }

  /** Where every hole can hold something, only the product of all the counts decides. */
  lemma {:induction false} CountableByProduct(spans: seq<Span>)
    requires forall i | 0 <= i < |spans| :: |PiecesOf(spans[i].hole)| > 0
    ensures Count(spans) > 0
    ensures Countable(spans) <==> Count(spans) <= MOST_NAMES
  {
    if |spans| > 0 {
      var last := |spans| - 1;
      CountableByProduct(spans[..last]);
      NotLess(Count(spans[..last]), |PiecesOf(spans[last].hole)|);
    }
  }
}
