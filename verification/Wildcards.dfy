/** Texts matched against a name read with `*` as any run of characters. */
module Wildcards {
  import opened Seqs

  predicate Matches(pattern: string, text: string)
    decreases |pattern| + |text|
  {
    if |pattern| == 0 then |text| == 0
    else if pattern[0] == '*' then Matches(pattern[1..], text) || (|text| > 0 && Matches(pattern, text[1..]))
    else |text| > 0 && pattern[0] == text[0] && Matches(pattern[1..], text[1..])
  }

  /** A text matches itself, whatever stars it holds. */
  lemma {:induction false} MatchesItself(text: string)
    ensures Matches(text, text)
  {
    if |text| > 0 {
      MatchesItself(text[1..]);
      if text[0] == '*' {
        StarTakesMore(text[1..], text[1..]);
      }
    }
  }

  /** A star in front of a match matches one with more in front. */
  lemma StarTakesMore(pattern: string, text: string)
    requires Matches(pattern, text)
    ensures Matches(['*'] + pattern, ['*'] + text)
    ensures Matches(['*'] + pattern, text)
  {
    ConsTail('*', pattern);
    ConsTail('*', text);
  }

  lemma {:induction false} StarMatches(text: string)
    ensures Matches("*", text)
    decreases |text|
  {
    if |text| > 0 {
      StarMatches(text[1..]);
    }
  }

  lemma {:induction false} MatchesTogether(pattern: string, text: string, pattern': string, text': string)
    requires Matches(pattern, text) && Matches(pattern', text')
    ensures Matches(pattern + pattern', text + text')
    decreases |pattern| + |text|
  {
    if |pattern| == 0 {
      ConcatEmpty(pattern, pattern');
      ConcatEmpty(text, text');
    } else {
      ConcatTail(pattern, pattern');
      if pattern[0] == '*' && Matches(pattern[1..], text) {
        MatchesTogether(pattern[1..], text, pattern', text');
      } else {
        ConcatTail(text, text');
        MatchesTogether(if pattern[0] == '*' then pattern else pattern[1..], text[1..], pattern', text');
      }
    }
  }

  /** Without a star, only the text itself matches. */
  lemma {:induction false} PlainMatchesOnlyItself(pattern: string, text: string)
    requires '*' !in pattern
    ensures Matches(pattern, text) <==> pattern == text
    decreases |pattern|
  {
    if |pattern| > 0 && |text| > 0 {
      assert pattern[0] in pattern;
      PlainMatchesOnlyItself(pattern[1..], text[1..]);
      assert pattern == [pattern[0]] + pattern[1..] && text == [text[0]] + text[1..];
    }
  }
}
