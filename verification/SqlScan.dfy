/**
 * Where a value stands in a statement (`beforeOpenParenthesis` and
 * `isValuePosition` in `sql.ts`): a scanner with a stack, against a count of
 * quotes and parentheses.
 */
module SqlScan {
  import opened Wrappers
  import opened Seqs
  import opened Text

  const QUOTE := '\''

  // ---- what a statement's text says ----

  function Quotes(text: string): nat {
    if |text| == 0 then 0 else Quotes(text[..|text| - 1]) + (if text[|text| - 1] == QUOTE then 1 else 0)
  }

  /** The text ends inside a quoted string: it holds an odd number of quotes. */
  predicate Quoted(text: string) {
    Quotes(text) % 2 == 1
  }

  function OneMore(before: Option<nat>, quoted: bool, last: char): Option<nat> {
    if before.None? || quoted || (last != '(' && last != ')') then before
    else if last == '(' then Some(before.value + 1)
    else if before.value == 0 then None
    else Some(before.value - 1)
  }

  /** How many parentheses outside quotes are open at the end; none where one is closed that was not opened. */
  function Level(text: string): Option<nat> {
    if |text| == 0 then Some(0)
    else
      var init, last := text[..|text| - 1], text[|text| - 1];
      OneMore(Level(init), Quoted(init), last)
  }

  predicate Balanced(text: string) {
    Level(text) == Some(0)
  }

  /** The statement is some text, a parenthesis outside quotes, and text that is balanced outside quotes. */
  predicate OpensAfter(sql: string, p: string, q: string) {
    sql == p + ("(" + q) && !Quoted(p) && Balanced(q)
  }

  // ---- the scanner ----

  /** The parentheses a text leaves open, as a stack of where they stand. */
  function Open(text: string): (open: seq<nat>)
    ensures forall k | 0 <= k < |open| :: open[k] < |text|
  {
    if |text| == 0 then []
    else
      var init := text[..|text| - 1];
      Stacked(Open(init), Quoted(init), text[|text| - 1], |init|)
  }

  /** The stack after one more character, which stands at a place of its own. */
  function Stacked(open: seq<nat>, quoted: bool, last: char, at: nat): seq<nat> {
    if quoted then open
    else if last == '(' then open + [at]
    else if last == ')' && |open| > 0 then open[..|open| - 1]
    else open
  }

  /** One pass with a stack; what it returns is the prefix `OpensAfter` allows, if any, and the parity of the quotes. */
  method BeforeOpenParenthesis(sql: string) returns (before: Option<string>, quoted: bool)
    ensures quoted == Quoted(sql)
    ensures before.Some? ==> exists q :: OpensAfter(sql, before.value, q)
    ensures forall p, q :: OpensAfter(sql, p, q) ==> before == Some(p)
  {
    var open: seq<nat> := [];
    quoted := false;
    for index := 0 to |sql|
      invariant quoted == Quoted(sql[..index])
      invariant open == Open(sql[..index])
    {
      var c := sql[index];
      ScanMore(sql, index);
      if c == QUOTE {
        quoted := !quoted;
      } else if quoted {
        continue;
      } else if c == '(' {
        open := open + [index];
      } else if c == ')' {
        if |open| > 0 {
          open := open[..|open| - 1];
        }
      }
    }
    assert sql[..|sql|] == sql;
    InnermostOpen(sql);
    if |open| == 0 {
      return None, quoted;
    }
    return Some(sql[..open[|open| - 1]]), quoted;
  }

  lemma ScanMore(sql: string, index: nat)
    requires index < |sql|
    ensures Quoted(sql[..index + 1]) <==> (Quoted(sql[..index]) != (sql[index] == QUOTE))
    ensures Open(sql[..index + 1]) == Stacked(Open(sql[..index]), Quoted(sql[..index]), sql[index], index)
  {
    TakeMore(sql, index);
  }

  /** The text before the innermost parenthesis on the stack. */
  function Innermost(sql: string): Option<string> {
    var open := Open(sql);
    if |open| == 0 then None else Some(sql[..open[|open| - 1]])
  }

  /** That is the one place the statement opens after, if there is any. */
  lemma InnermostOpen(sql: string)
    ensures forall p, q :: OpensAfter(sql, p, q) ==> Innermost(sql) == Some(p)
    ensures Innermost(sql).Some? ==> exists q :: OpensAfter(sql, Innermost(sql).value, q)
  {
    forall p, q | OpensAfter(sql, p, q) ensures Innermost(sql) == Some(p) {
      OpensAtInnermost(p, q);
    }
    if |Open(sql)| > 0 {
      var last := Open(sql)[|Open(sql)| - 1];
      OpenStands(sql, |Open(sql)| - 1);
      SplitsAt(sql, last);
      assert OpensAfter(sql, sql[..last], sql[last + 1..]);
    }
  }

  lemma OpensAtInnermost(p: string, q: string)
    requires !Quoted(p) && Level(q) == Some(0)
    ensures Innermost(p + ("(" + q)) == Some(p)
  {
    OpenUnder(p, q);
    assert (p + ("(" + q))[..|p|] == p;
  }

  // ---- the stack is what the counts say ----

  lemma {:induction false} QuotesConcat(a: string, b: string)
    ensures Quotes(a + b) == Quotes(a) + Quotes(b)
  {
    if |b| == 0 {
      ConcatEmpty(a, b);
    } else {
      QuotesConcat(a, b[..|b| - 1]);
      assert (a + b)[..|a + b| - 1] == a + b[..|b| - 1];
    }
  }

  /** After an open parenthesis outside quotes, what follows is quoted as if it stood alone. */
  lemma QuotedAfter(p: string, q: string)
    requires !Quoted(p)
    ensures Quoted(p + ("(" + q)) <==> Quoted(q)
  {
    QuotesConcat("(", q);
    QuotesConcat(p, "(" + q);
    assert Quotes("(") == 0 by {
      assert "("[..0] == "";
    }
  }

  lemma SnocAfter(p: string, q: string)
    requires |q| > 0
    ensures (p + ("(" + q))[..|p + ("(" + q)| - 1] == p + ("(" + q[..|q| - 1])
    ensures (p + ("(" + q))[|p + ("(" + q)| - 1] == q[|q| - 1]
  {
  }

  /** A parenthesis opened outside quotes stays open under whatever is open in what follows it. */
  lemma {:induction false} OpenUnder(p: string, q: string)
    requires !Quoted(p) && Level(q).Some?
    ensures |Open(p + ("(" + q))| == |Open(p)| + 1 + Level(q).value
    ensures Open(p + ("(" + q))[|Open(p)|] == |p|
    decreases |q|
  {
    var sql := p + ("(" + q);
    if |q| == 0 {
      assert sql[..|sql| - 1] == p && sql[|sql| - 1] == '(';
    } else {
      SnocAfter(p, q);
      OpenUnder(p, q[..|q| - 1]);
      QuotedAfter(p, q[..|q| - 1]);
    }
  }

  lemma SplitsAt(text: string, at: nat)
    requires at < |text| && text[at] == '('
    ensures text == text[..at] + ("(" + text[at + 1..])
  {
  }

  /** What one more character does to what is open after a parenthesis is what it does to what is open at all. */
  lemma OneMoreAfter(init: string, last: char, at: nat)
    requires at < |init| && init[at] == '(' && !Quoted(init[..at])
    ensures (init + [last])[at] == init[at] && (init + [last])[..at] == init[..at]
    ensures Level((init + [last])[at + 1..]) == OneMore(Level(init[at + 1..]), Quoted(init), last)
  {
    var after := (init + [last])[at + 1..];
    assert after == init[at + 1..] + [last];
    assert after[..|after| - 1] == init[at + 1..];
    SplitsAt(init, at);
    QuotedAfter(init[..at], init[at + 1..]);
  }

  /** Each parenthesis on the stack is one outside quotes, with as many open after it as stand above it. */
  lemma {:induction false} OpenStands(text: string, k: nat)
    requires k < |Open(text)|
    ensures text[Open(text)[k]] == '(' && !Quoted(text[..Open(text)[k]])
    ensures Level(text[Open(text)[k] + 1..]) == Some(|Open(text)| - 1 - k)
    decreases |text|
  {
    var init, last := text[..|text| - 1], text[|text| - 1];
    assert text == init + [last];
    if k < |Open(init)| {
      OpenStands(init, k);
      StillStands(init, last, k);
    } else {
      assert |text[Open(text)[k] + 1..]| == 0 && text[..Open(text)[k]] == init;
    }
  }

  /** A parenthesis that stood on the stack and still does stands under as many as there are above it. */
  lemma StillStands(init: string, last: char, k: nat)
    requires k < |Open(init)| && k < |Open(init + [last])|
    requires init[Open(init)[k]] == '(' && !Quoted(init[..Open(init)[k]])
    requires Level(init[Open(init)[k] + 1..]) == Some(|Open(init)| - 1 - k)
    ensures var text := init + [last];
            Open(text)[k] == Open(init)[k]
            && text[Open(text)[k]] == '(' && !Quoted(text[..Open(text)[k]])
            && Level(text[Open(text)[k] + 1..]) == Some(|Open(text)| - 1 - k)
  {
    var at := Open(init)[k];
    OpenSnoc(init, last);
    StackedKeeps(Open(init), Quoted(init), last, |init|, k);
    OneMoreAfter(init, last, at);
    assert Open(init + [last])[k] == at;
  }

  lemma OpenSnoc(init: string, last: char)
    ensures Open(init + [last]) == Stacked(Open(init), Quoted(init), last, |init|)
  {
    assert (init + [last])[..|init|] == init;
  }

  /** What stays on the stack stays where it is, and one more character changes what is above it by one at most. */
  lemma StackedKeeps(open: seq<nat>, quoted: bool, last: char, at: nat, k: nat)
    requires k < |open| && k < |Stacked(open, quoted, last, at)|
    ensures Stacked(open, quoted, last, at)[k] == open[k]
    ensures OneMore(Some(|open| - 1 - k), quoted, last) == Some(|Stacked(open, quoted, last, at)| - 1 - k)
  {
  }

  // ---- where a value stands ----

  /** The text ends in an opening parenthesis or a comma, spaces aside. */
  predicate EndsInList(text: string) {
    |text| > 0 && (text[|text| - 1] == '(' || text[|text| - 1] == ','
        || (IsSpace(text[|text| - 1]) && EndsInList(text[..|text| - 1])))
  }

  /** What the two patterns of words accept: text before a value, and text that opens a list of them. */
  datatype Words = Words(valueAfter: string -> bool, listOpener: string -> bool)

  /** A hole can only hold a value: inside quotes, after such words, or as an item of a list they open. */
  method IsValuePosition(words: Words, before: string) returns (value: bool)
    ensures value
       <==> Quoted(before)
            || words.valueAfter(before)
            || (EndsInList(before) && exists p, q :: OpensAfter(before, p, q) && words.listOpener(p))
  {
    if Quotes(before) % 2 == 1 {
      return true;
    }
    if words.valueAfter(before) {
      return true;
    }
    if !EndsInList(before) {
      return false;
    }
    var opener, _ := BeforeOpenParenthesis(before);
    return opener.Some? && words.listOpener(opener.value);
  }
}
