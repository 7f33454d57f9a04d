/** Every string a template can be is covered by a name it resolves to, and no name says more than it must. */
module ChannelNameLaws {
  import opened Wrappers
  import opened Seqs
  import opened Wildcards
  import opened ChannelNames

  /** What a run's holes hold, with a star for each hole nothing is known of. */
  function Starred(spans: seq<Span>, filling: seq<string>): seq<string>
    requires |filling| == |spans|
  {
    seq(|spans|, i requires 0 <= i < |spans| => if spans[i].hole.Unread? then "*" else filling[i])
  }

  /** The same with a star for each hole that does not evaluate. */
  function Patterned(spans: seq<Span>): seq<string> {
    seq(|spans|, i requires 0 <= i < |spans| => if spans[i].hole.Evaluated? then spans[i].hole.text else "*")
  }

  predicate EachMatches(patterns: seq<string>, texts: seq<string>) {
    |patterns| == |texts| && forall i | 0 <= i < |texts| :: Matches(patterns[i], texts[i])
  }

  /** Pieces that match what the holes hold make a name that matches the whole. */
  lemma {:induction false} FilledMatches(template: Template, patterns: seq<string>, texts: seq<string>)
    requires |patterns| == |texts| == |template.spans| && EachMatches(patterns, texts)
    ensures Matches(Filled(template, patterns), Filled(template, texts))
    decreases |template.spans|
  {
    if |texts| == 0 {
      MatchesItself(template.head);
    } else {
      var last := |texts| - 1;
      var before := Template(template.head, template.spans[..last]);
      var tail := template.spans[last].tail;
      FilledMatches(before, patterns[..last], texts[..last]);
      MatchesItself(tail);
      MatchesTogether(Filled(before, patterns[..last]), Filled(before, texts[..last]), patterns[last], texts[last]);
      MatchesTogether(Filled(before, patterns[..last]) + patterns[last], Filled(before, texts[..last]) + texts[last],
          tail, tail);
    }
  }

  lemma {:induction false} PatternIsFilled(template: Template)
    ensures PatternOf(template) == Filled(template, Patterned(template.spans))
    decreases |template.spans|
  {
    var spans := template.spans;
    if |spans| > 0 {
      var last := |spans| - 1;
      PatternIsFilled(Template(template.head, spans[..last]));
      assert Patterned(spans)[..last] == Patterned(spans[..last]);
    }
  }

  /** The pattern covers whatever the template can be. */
  lemma PatternCovers(template: Template, filling: seq<string>)
    requires Fills(template.spans, filling)
    ensures Matches(PatternOf(template), Filled(template, filling))
  {
    PatternIsFilled(template);
    var patterns := Patterned(template.spans);
    forall i | 0 <= i < |filling| ensures Matches(patterns[i], filling[i]) {
      MatchesItself(filling[i]);
      StarMatches(filling[i]);
    }
    FilledMatches(template, patterns, filling);
  }

  /** One of the names listed covers whatever the template can be. */
  lemma NameCovers(template: Template, filling: seq<string>)
    requires Fills(template.spans, filling) && NamesOf(template).Some?
    ensures exists name :: name in NamesOf(template).value && Matches(name, Filled(template, filling))
  {
    var starred := Starred(template.spans, filling);
    forall i | 0 <= i < |filling|
      ensures Matches(starred[i], filling[i]) && starred[i] in PiecesOf(template.spans[i].hole) {
      MatchesItself(filling[i]);
      StarMatches(filling[i]);
    }
    FilledMatches(template, starred, filling);
    PiecedIsNamed(template, starred);
  }

  /** Every string the template can be, in any run, matches one of the names it resolves to. */
  lemma EveryStringIsNamed(template: Template, filling: seq<string>)
    requires Fills(template.spans, filling)
    requires Resolution(NamesOf(template), PatternOf(template)).Some?
    ensures exists name ::
            name in Resolution(NamesOf(template), PatternOf(template)).value.names
                && Matches(name, Filled(template, filling))
  {
    var names := NamesOf(template);
    if names.Some? {
      UniqueHolds(names.value);
      NameCovers(template, filling);
    } else {
      PatternCovers(template, filling);
      var reached := Resolution(names, PatternOf(template)).value.names;
      assert reached[0] == PatternOf(template);
    }
  }

  /** A name resolved to is listed once, and there are never more than the most there may be. */
  lemma NamesAreFew(template: Template)
    requires Resolution(NamesOf(template), PatternOf(template)).Some?
    ensures |Resolution(NamesOf(template), PatternOf(template)).value.names| <= MOST_NAMES
    ensures NoRepeats(Resolution(NamesOf(template), PatternOf(template)).value.names)
  {
    if NamesOf(template).Some? {
      UniqueHolds(NamesOf(template).value);
      NamesWithinCap(template);
    }
  }

  /** A piece with no star is something its hole can hold. */
  lemma {:induction false} StarInside(template: Template, filling: seq<string>, i: nat)
    requires |filling| == |template.spans| && i < |filling| && '*' in filling[i]
    ensures '*' in Filled(template, filling)
    decreases |filling|
  {
    var last := |filling| - 1;
    if i < last {
      StarInside(Template(template.head, template.spans[..last]), filling[..last], i);
    }
  }

  /** A name with no star is what the template is in some run. */
  lemma StarlessNameIsTaken(template: Template, name: string) returns (filling: seq<string>)
    requires Resolution(NamesOf(template), PatternOf(template)).Some?
    requires name in Resolution(NamesOf(template), PatternOf(template)).value.names && '*' !in name
    ensures Fills(template.spans, filling) && Filled(template, filling) == name
  {
    if NamesOf(template).Some? {
      UniqueHolds(NamesOf(template).value);
      filling := NamedIsPieced(template, name);
    } else {
      PatternIsFilled(template);
      filling := Patterned(template.spans);
    }
    forall i | 0 <= i < |filling| ensures Holds(template.spans[i].hole, filling[i]) {
      if filling[i] == "*" {
        assert filling[i][0] == '*';
        StarInside(template, filling, i);
      }
    }
  }

  /** A template read as a literal can be the names it resolves to and nothing else. */
  lemma LiteralNamesAreAll(template: Template, text: string)
    requires Resolution(NamesOf(template), PatternOf(template)).Some?
    requires !Resolution(NamesOf(template), PatternOf(template)).value.template
    ensures text in Resolution(NamesOf(template), PatternOf(template)).value.names
       <==> exists filling :: Fills(template.spans, filling) && Filled(template, filling) == text
  {
    var names := Resolution(NamesOf(template), PatternOf(template)).value.names;
    if text in names {
      var filling := StarlessNameIsTaken(template, text);
    }
    if filling :| Fills(template.spans, filling) && Filled(template, filling) == text {
      EveryStringIsNamed(template, filling);
      var name :| name in names && Matches(name, text);
      PlainMatchesOnlyItself(name, text);
    }
  }

  // ---- the name covers the names ----

  /** The pattern covers every name a template's pieces make. */
  lemma PatternCoversPieces(template: Template, pieces: seq<string>)
    requires Pieced(template.spans, pieces)
    ensures Matches(PatternOf(template), Filled(template, pieces))
  {
    PatternIsFilled(template);
    var patterns := Patterned(template.spans);
    forall i | 0 <= i < |pieces| ensures Matches(patterns[i], pieces[i]) {
      MatchesItself(pieces[i]);
      StarMatches(pieces[i]);
    }
    FilledMatches(template, patterns, pieces);
  }

  /** What a template is called, read with stars, covers each of the names it resolves to. */
  lemma NameCoversNames(template: Template, name: string)
    requires Resolution(NamesOf(template), PatternOf(template)).Some?
    requires name in Resolution(NamesOf(template), PatternOf(template)).value.names
    ensures Matches(Resolution(NamesOf(template), PatternOf(template)).value.name, name)
  {
    var resolved := Resolution(NamesOf(template), PatternOf(template)).value;
    MatchesItself(name);
    if NamesOf(template).Some? {
      UniqueHolds(NamesOf(template).value);
      var pieces := NamedIsPieced(template, name);
      PatternCoversPieces(template, pieces);
      if |Unique(NamesOf(template).value)| == 1 {
        assert resolved.names == [resolved.name];
      }
    }
  }
}
