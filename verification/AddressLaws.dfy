/** What joined addresses say of the parts they were read from. */
module AddressLaws {
  import opened Wrappers
  import opened Seqs
  import opened Text
  import opened Wildcards
  import opened Addresses

  /** One name picked for each part. */
  predicate Picks(parts: seq<Resolution>, picked: seq<string>)
    requires AllChannels(parts)
  {
    |picked| == |parts| && forall i | 0 <= i < |parts| :: picked[i] in parts[i].names
  }

  lemma {:induction false} JoinLast(pieces: seq<string>, with: char)
    requires |pieces| > 1
    ensures Join(pieces, with) == Join(pieces[..|pieces| - 1], with) + [with] + pieces[|pieces| - 1]
  {
    var init := pieces[..|pieces| - 1];
    if |pieces| == 2 {
      assert pieces[1..] == [pieces[1]];
    } else {
      JoinLast(pieces[1..], with);
      assert pieces[1..][..|pieces| - 2] == init[1..];
    }
  }

  lemma {:induction false} SeparatedHolds(heads: seq<string>, names: seq<string>, first: bool)
    ensures |Separated(heads, names, first)| == |heads| * |names|
    ensures forall h, n :: h in heads && n in names ==> Followed(h, n, first) in Separated(heads, names, first)
    ensures forall x :: x in Separated(heads, names, first) ==>
              exists h, n :: h in heads && n in names && x == Followed(h, n, first)
  {
    if |heads| > 0 {
      var init, last := heads[..|heads| - 1], heads[|heads| - 1];
      SeparatedHolds(init, names, first);
      assert heads == init + [last];
      var after := After(last, names, first);
      forall n | n in names ensures Followed(last, n, first) in after {
        var i :| 0 <= i < |names| && names[i] == n;
        assert after[i] == Followed(last, n, first);
      }
      forall x | x in after ensures exists n :: n in names && x == Followed(last, n, first) {
        var i :| 0 <= i < |after| && after[i] == x;
        assert names[i] in names;
      }
      ProductMore(|init|, |names|);
    }
  }

  /** The counts of the parts multiplied. */
  function Product(parts: seq<Resolution>): nat
    requires AllChannels(parts)
  {
    if |parts| == 0 then 1 else Product(parts[..|parts| - 1]) * |parts[|parts| - 1].names|
  }

  /** Parts that each have a name combine exactly while the product of their counts is within the most there may be. */
  lemma {:induction false} CombinedWithinCap(parts: seq<Resolution>)
    requires AllChannels(parts)
    requires forall i | 0 <= i < |parts| :: |parts[i].names| > 0
    ensures Product(parts) > 0
    ensures Combined(parts).Some? <==> Product(parts) <= MOST_CHOICES
    ensures Combined(parts).Some? ==> |Combined(parts).value| == Product(parts)
  {
    if |parts| > 0 {
      var last := |parts| - 1;
      CombinedWithinCap(parts[..last]);
      NotLess(Product(parts[..last]), |parts[last].names|);
      if Combined(parts[..last]).Some? {
        SeparatedHolds(Combined(parts[..last]).value, parts[last].names, |parts| == 1);
      }
    }
  }

  /** One more name after those picked. */
  lemma JoinPicked(picked: seq<string>)
    requires |picked| > 0
    ensures Join(picked, '/') == Followed(Join(picked[..|picked| - 1], '/'), picked[|picked| - 1], |picked| == 1)
  {
    if |picked| > 1 {
      JoinLast(picked, '/');
    }
  }

  lemma {:induction false} PicksAreCombined(parts: seq<Resolution>, picked: seq<string>)
    requires AllChannels(parts) && Picks(parts, picked) && Combined(parts).Some?
    ensures Join(picked, '/') in Combined(parts).value
  {
    if |parts| > 0 {
      var last := |parts| - 1;
      PicksAreCombined(parts[..last], picked[..last]);
      JoinPicked(picked);
      SeparatedHolds(Combined(parts[..last]).value, parts[last].names, |parts| == 1);
    }
  }

  lemma {:induction false} CombinedArePicks(parts: seq<Resolution>, name: string) returns (picked: seq<string>)
    requires AllChannels(parts) && Combined(parts).Some? && name in Combined(parts).value
    ensures Picks(parts, picked) && Join(picked, '/') == name
    decreases |parts|
  {
    if |parts| == 0 {
      return [];
    }
    var h, n := LastPicked(parts, name);
    var start := CombinedArePicks(parts[..|parts| - 1], h);
    PickMore(parts, start, n);
    return start + [n];
  }

  lemma LastPicked(parts: seq<Resolution>, name: string) returns (h: string, n: string)
    requires AllChannels(parts) && |parts| > 0 && Combined(parts).Some? && name in Combined(parts).value
    ensures Combined(parts[..|parts| - 1]).Some? && h in Combined(parts[..|parts| - 1]).value
    ensures n in parts[|parts| - 1].names && name == Followed(h, n, |parts| == 1)
  {
    var heads := Combined(parts[..|parts| - 1]).value;
    SeparatedHolds(heads, parts[|parts| - 1].names, |parts| == 1);
    h, n :| h in heads && n in parts[|parts| - 1].names && name == Followed(h, n, |parts| == 1);
  }

  lemma PickMore(parts: seq<Resolution>, start: seq<string>, name: string)
    requires AllChannels(parts) && |parts| > 0
    requires Picks(parts[..|parts| - 1], start) && name in parts[|parts| - 1].names
    ensures Picks(parts, start + [name])
    ensures Join(start + [name], '/') == Followed(Join(start, '/'), name, |parts| == 1)
  {
    var picked := start + [name];
    assert picked[..|picked| - 1] == start;
    JoinPicked(picked);
    forall i | 0 <= i < |parts| ensures picked[i] in parts[i].names {
      if i < |start| {
        assert picked[i] == start[i];
      }
    }
  }

  /**
   * Two or more parts that read join into every combination of their names, each
   * once, or are refused; and they are refused exactly when the combinations are
   * more than one address may stand for.
   */
  lemma JoinedIsEveryCombination(parts: seq<Resolution>, fallback: string)
    requires AllChannels(parts) && |parts| > 1
    requires forall i | 0 <= i < |parts| :: |parts[i].names| > 0
    ensures Joined(parts, fallback).Refused? <==> Product(parts) > MOST_CHOICES
    ensures Joined(parts, fallback).Channel? ==> NoRepeats(Joined(parts, fallback).names)
    ensures Joined(parts, fallback).Channel? ==> |Joined(parts, fallback).names| <= MOST_CHOICES
    ensures Joined(parts, fallback).Channel? ==>
              forall name :: name in Joined(parts, fallback).names
                <==> exists picked :: Picks(parts, picked) && Join(picked, '/') == name
  {
    CombinedWithinCap(parts);
    if Joined(parts, fallback).Channel? {
      var names := Combined(parts).value;
      UniqueHolds(names);
      forall name ensures name in names <==> exists picked :: Picks(parts, picked) && Join(picked, '/') == name {
        if name in names {
          var picked := CombinedArePicks(parts, name);
        }
        if picked :| Picks(parts, picked) && Join(picked, '/') == name {
          PicksAreCombined(parts, picked);
        }
      }
    }
  }

  // ---- the joined name covers what it joins ----

  /** A channel's name, read with stars, covers each of its names. */
  predicate Covers(channel: Resolution)
    requires channel.Channel?
  {
    forall i | 0 <= i < |channel.names| :: Matches(channel.name, channel.names[i])
  }

  lemma {:induction false} JoinedMatches(patterns: seq<string>, texts: seq<string>)
    requires |patterns| == |texts|
    requires forall i | 0 <= i < |texts| :: Matches(patterns[i], texts[i])
    ensures Matches(Join(patterns, '/'), Join(texts, '/'))
  {
    if |texts| > 1 {
      JoinedMatches(patterns[1..], texts[1..]);
      MatchesItself(['/']);
      MatchesTogether(patterns[0], texts[0], ['/'], ['/']);
      MatchesTogether(patterns[0] + ['/'], texts[0] + ['/'], Join(patterns[1..], '/'), Join(texts[1..], '/'));
    }
  }

  /** Where every part's name covers its names, so does the joined one. */
  lemma JoinedCovers(parts: seq<Resolution>, fallback: string)
    requires AllChannels(parts) && |parts| > 0
    requires forall i | 0 <= i < |parts| :: Covers(parts[i])
    requires Joined(parts, fallback).Channel?
    ensures Covers(Joined(parts, fallback))
  {
    if |parts| > 1 {
      var joined := Joined(parts, fallback);
      UniqueHolds(Combined(parts).value);
      forall i | 0 <= i < |joined.names| ensures Matches(joined.name, joined.names[i]) {
        assert joined.names[i] in Combined(parts).value;
        var picked := CombinedArePicks(parts, joined.names[i]);
        forall k | 0 <= k < |parts| ensures Matches(NamesOfParts(parts)[k], picked[k]) {
          var at :| 0 <= at < |parts[k].names| && parts[k].names[at] == picked[k];
        }
        JoinedMatches(NamesOfParts(parts), picked);
      }
    }
  }

  // ---- awaiting ----

  /**
   * What a function is deployed with for a variable: its text, where the
   * deployment's reader settled it, and whether what it names was read, so that
   * it stands as it is.
   */
  datatype Deployed = Deployed(text: Option<string>, named: bool)

  /**
   * What completes an address: the variables a function is deployed with, and the
   * one value a repository's files give others.
   */
  datatype Settings = Settings(deployed: map<string, Deployed>, files: map<string, string>)

  /** What an awaited part is once the settings are known. */
  function Completed(within: NameWithin, part: AwaitedPart, settings: Settings): Option<string> {
    match part
    case Known(text) => Some(text)
    case Awaited(environment, forms, otherwise) =>
      if environment in settings.deployed then
        var value := settings.deployed[environment];
        if value.text.None? then None
        else Some(if value.named then value.text.value else Inside(within, value.text.value, forms))
      else if otherwise.Some? then otherwise
      else if environment in settings.files then Some(Inside(within, settings.files[environment], forms))
      else None
  }

  /** A part written in the code with this text. */
  function WrittenAs(within: NameWithin, part: Part, text: string): Resolution {
    WithForms(within, Channel(text, [text], AsLiteral), FormsOf(part))
  }

  /**
   * What a part would have read as, had the code held what stands for the
   * variable: the deployment's value, the fallback where it sets none, and else
   * the files'. A value that names something outright is that name.
   */
  function ReadInstead(within: NameWithin, part: Part, reading: Resolution, settings: Settings): Resolution {
    match reading
    case Channel(_, _, _) => reading
    case Refused(refusal) =>
      if !refusal.FromEnvironment? || refusal.variable.None? then reading
      else if refusal.variable.value in settings.deployed then
        var value := settings.deployed[refusal.variable.value];
        if value.text.None? then reading
        else if value.named then Channel(value.text.value, [value.text.value], AsLiteral)
        else WrittenAs(within, part, value.text.value)
      else if refusal.otherwise.Some? then WrittenAs(within, part, refusal.otherwise.value)
      else if refusal.variable.value in settings.files
      then WrittenAs(within, part, settings.files[refusal.variable.value])
      else reading
  }

  function ReadingsInstead(
      within: NameWithin, parts: seq<Part>, readings: seq<Resolution>, settings: Settings): seq<Resolution>
    requires |parts| == |readings|
  {
    seq(|parts|, i requires 0 <= i < |parts| => ReadInstead(within, parts[i], readings[i], settings))
  }

  /**
   * An awaited address completed with a deployment's values is the name the
   * address reads as with those values in the code; and it completes exactly
   * when that address reads.
   */
  lemma CompletedIsWhatWouldBeRead(
      within: NameWithin, parts: seq<Part>, readings: seq<Resolution>, settings: Settings, fallback: string)
    requires |parts| == |readings| && |parts| > 0
    requires forall name: string :: within(name, []) == name
    requires Awaiting(within, parts, readings).Some?
    ensures AllCompleted(within, Awaiting(within, parts, readings).value, settings)
       <==> Joined(ReadingsInstead(within, parts, readings, settings), fallback).Channel?
    ensures AllCompleted(within, Awaiting(within, parts, readings).value, settings)
       ==> Joined(ReadingsInstead(within, parts, readings, settings), fallback).name
           == Join(CompletedParts(within, Awaiting(within, parts, readings).value, settings), '/')
  {
    var awaiting := Awaiting(within, parts, readings).value;
    var instead := ReadingsInstead(within, parts, readings, settings);
    forall i | 0 <= i < |parts|
      ensures Completed(within, awaiting[i], settings).Some? <==> instead[i].Channel?
      ensures instead[i].Channel?
              ==> Completed(within, awaiting[i], settings) == Some(instead[i].name) && |instead[i].names| == 1
    {
      PartCompleted(within, parts[i], readings[i], settings);
    }
    if AllChannels(instead) {
      forall i | 0 <= i < |awaiting| ensures Completed(within, awaiting[i], settings).Some? {
        assert instead[i].Channel?;
      }
      assert NamesOfParts(instead) == CompletedParts(within, awaiting, settings);
      OneEach(instead);
      CombinedWithinCap(instead);
    } else {
      StaysRefused(instead);
      var i :| 0 <= i < |instead| && !instead[i].Channel?;
      assert Completed(within, awaiting[i], settings).None?;
    }
  }

  lemma {:induction false} StaysRefused(readings: seq<Resolution>)
    requires !AllChannels(readings)
    ensures FirstRefused(readings).Refused?
  {
    if readings[0].Channel? {
      StaysRefused(readings[1..]);
    }
  }

  predicate AllCompleted(within: NameWithin, awaiting: seq<AwaitedPart>, settings: Settings) {
    forall i | 0 <= i < |awaiting| :: Completed(within, awaiting[i], settings).Some?
  }

  function CompletedParts(within: NameWithin, awaiting: seq<AwaitedPart>, settings: Settings): seq<string> {
    seq(|awaiting|, i requires 0 <= i < |awaiting| => Completed(within, awaiting[i], settings).GetOr(""))
  }

  lemma PartCompleted(within: NameWithin, part: Part, reading: Resolution, settings: Settings)
    requires forall name: string :: within(name, []) == name
    requires AwaitedOf(within, part, reading).Some?
    ensures Completed(within, AwaitedOf(within, part, reading).value, settings).Some?
       <==> ReadInstead(within, part, reading, settings).Channel?
    ensures ReadInstead(within, part, reading, settings).Channel? ==>
              Completed(within, AwaitedOf(within, part, reading).value, settings)
              == Some(ReadInstead(within, part, reading, settings).name)
              && |ReadInstead(within, part, reading, settings).names| == 1
  {
    forall text: string
      ensures WrittenAs(within, part, text).name == Inside(within, text, FormsOf(part))
              && |WrittenAs(within, part, text).names| == 1
    {
      WrittenIsOneName(within, part, text);
    }
  }

  lemma WrittenIsOneName(within: NameWithin, part: Part, text: string)
    requires forall name: string :: within(name, []) == name
    ensures WrittenAs(within, part, text).name == Inside(within, text, FormsOf(part))
            && |WrittenAs(within, part, text).names| == 1
  {
    if FormsOf(part).Some? {
      var formed := within(text, FormsOf(part).value);
      assert seq(1, i requires 0 <= i < 1 => within([text][i], FormsOf(part).value)) == [formed];
      assert Unique([formed]) == [formed];
    }
  }

  lemma {:induction false} OneEach(parts: seq<Resolution>)
    requires AllChannels(parts) && forall i | 0 <= i < |parts| :: |parts[i].names| == 1
    ensures Product(parts) == 1
  {
    if |parts| > 0 {
      OneEach(parts[..|parts| - 1]);
    }
  }

  // ---- one part ----

  /** The first place that reads as a name answers, and where none does the refusal is the first place's. */
  lemma {:induction false} FirstReadableWins(written: seq<Written>) returns (i: nat)
    requires |written| > 0
    ensures i < |written| && FirstRead(written) == ResolutionOf(written[i])
    ensures forall j | 0 <= j < i :: ResolutionOf(written[j]).Refused?
    ensures ResolutionOf(written[i]).Refused?
            ==> i == 0 && forall j | 0 <= j < |written| :: ResolutionOf(written[j]).Refused?
  {
    i := 0;
    if ResolutionOf(written[0]).Refused? && |written| > 1 {
      var later := FirstReadableWins(written[1..]);
      forall j | 1 <= j < |written| ensures written[j] == written[1..][j - 1] {
      }
      if ResolutionOf(written[1..][later]).Channel? {
        i := later + 1;
      }
    }
  }

  /** What is written at an element, place by place, a single place standing for every element. */
  lemma {:induction false} WrittenExactly(located: seq<Slots>, index: nat, one: Written)
    ensures one in WrittenAt(located, index)
       <==> exists k | 0 <= k < |located| :: SlotAt(located[k], index) == Some(one)
  {
    if |located| > 0 {
      WrittenExactly(located[1..], index, one);
      assert forall k | 1 <= k < |located| :: located[k] == located[1..][k - 1];
      if one in WrittenAt(located[1..], index) {
        var k :| 0 <= k < |located[1..]| && SlotAt(located[1..][k], index) == Some(one);
        assert SlotAt(located[k + 1], index) == Some(one);
      }
    }
  }

  // ---- every element ----

  lemma {:induction false} ChannelsHold(elements: seq<Resolution>)
    ensures forall c :: c in ChannelsOf(elements) <==> c in elements && c.Channel?
  {
    if |elements| > 0 {
      ChannelsHold(elements[..|elements| - 1]);
      assert elements == elements[..|elements| - 1] + [elements[|elements| - 1]];
    }
  }

  lemma {:induction false} AllNamesHold(channels: seq<Resolution>)
    requires AllChannels(channels)
    ensures forall name :: name in AllNames(channels) <==> exists c :: c in channels && name in c.names
  {
    if |channels| > 0 {
      AllNamesHold(channels[..|channels| - 1]);
      assert channels == channels[..|channels| - 1] + [channels[|channels| - 1]];
    }
  }

  lemma {:induction false} ResolutionsHold(
      within: NameWithin, parts: seq<Part>, located: seq<seq<Slots>>, count: nat, fallback: string)
    requires |located| == |parts| && |parts| > 0
    ensures forall r :: r in Resolutions(within, parts, located, count, fallback) <==>
              exists i: nat :: i < count && !IsNone(parts, located, i)
                && Joined(Readings(within, parts, located, i, fallback), fallback) == r
  {
    if count > 0 {
      ResolutionsHold(within, parts, located, count - 1, fallback);
    }
  }

  /**
   * Folded into one answer, an address reaches exactly the names its elements
   * reach, and is refused exactly when none reaches any.
   */
  lemma CollapsedReachesEveryElement(within: NameWithin, parts: seq<Part>, located: seq<seq<Slots>>, fallback: string)
    requires |located| == |parts| && |parts| > 0
    ensures Collapsed(ReadAddress(within, parts, located, fallback)).Channel? <==>
              exists i: nat :: i < CountOf(located) && !IsNone(parts, located, i)
                && Joined(Readings(within, parts, located, i, fallback), fallback).Channel?
    ensures Collapsed(ReadAddress(within, parts, located, fallback)).Channel? ==>
              forall name :: name in Collapsed(ReadAddress(within, parts, located, fallback)).names <==>
                exists i: nat :: i < CountOf(located) && !IsNone(parts, located, i)
                  && Joined(Readings(within, parts, located, i, fallback), fallback).Channel?
                  && name in Joined(Readings(within, parts, located, i, fallback), fallback).names
  {
    var elements := ReadAddress(within, parts, located, fallback);
    var channels := ChannelsOf(elements);
    ResolutionsHold(within, parts, located, CountOf(located), fallback);
    ChannelsHold(elements);
    AllNamesHold(channels);
    UniqueHolds(AllNames(channels));
    if |channels| == 0 {
      assert forall c :: c in elements ==> !c.Channel?;
      if |elements| > 0 {
        assert elements[0] in elements;
      }
    } else {
      assert channels[0] in channels;
    }
  }
}
