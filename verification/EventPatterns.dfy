/** The events a pattern names exactly (`exactEvents` in `deployed-channels.ts`). */
module EventPatterns {
  import opened Wrappers
  import opened Seqs
  import opened ChannelNames

  /** A filter on a field: one value, or any other kind, told apart by what it lets pass. */
  datatype Filter = Equals(value: string) | OtherFilter(passes: string -> bool)

  type Event = (string, string)

  /** What a pattern asks of the two fields an event is named by. */
  datatype Pattern = Pattern(sources: seq<Filter>, detailTypes: seq<Filter>)

  const MOST_CHOICES := MOST_NAMES

  // ---- what a pattern takes ----

  predicate Lets(filter: Filter, value: string) {
    match filter
    case Equals(one) => value == one
    case OtherFilter(passes) => passes(value)
  }

  /** A field passes unfiltered, or by any of its filters. */
  predicate Passes(filters: seq<Filter>, value: string) {
    |filters| == 0 || exists i | 0 <= i < |filters| :: Lets(filters[i], value)
  }

  predicate Takes(pattern: Pattern, event: Event) {
    Passes(pattern.sources, event.0) && Passes(pattern.detailTypes, event.1)
  }

  // ---- the reading ----

  function ValuesOf(filters: seq<Filter>): seq<string> {
    if |filters| == 0 then []
    else
      ValuesOf(filters[..|filters| - 1])
      + (if filters[|filters| - 1].Equals? then [filters[|filters| - 1].value] else [])
  }

  /** The values a field is filtered to, where it is filtered and by values alone. */
  function ExactValues(filters: seq<Filter>): Option<seq<string>> {
    if |filters| > 0 && |ValuesOf(filters)| == |filters| then Some(Unique(ValuesOf(filters))) else None
  }

  function Pairs(detailTypes: seq<string>): string -> seq<Event> {
    (source: string) => seq(|detailTypes|, i requires 0 <= i < |detailTypes| => (source, detailTypes[i]))
  }

  function ExactEvents(pattern: Pattern): Option<seq<Event>> {
    var sources, detailTypes := ExactValues(pattern.sources), ExactValues(pattern.detailTypes);
    if sources.None? || detailTypes.None? || |sources.value| * |detailTypes.value| > MOST_CHOICES then None
    else Some(FlatMap(sources.value, Pairs(detailTypes.value)))
  }

  // ---- what it names is what it takes ----

  lemma {:induction false} ValuesAreEqualled(filters: seq<Filter>)
    ensures |ValuesOf(filters)| <= |filters|
    ensures |ValuesOf(filters)| == |filters|
            ==> forall i | 0 <= i < |filters| :: filters[i] == Equals(ValuesOf(filters)[i])
  {
    if |filters| > 0 {
      ValuesAreEqualled(filters[..|filters| - 1]);
    }
  }

  lemma ExactValuesPass(filters: seq<Filter>, value: string)
    requires ExactValues(filters).Some?
    ensures value in ExactValues(filters).value <==> Passes(filters, value)
    ensures NoRepeats(ExactValues(filters).value)
  {
    var values := ValuesOf(filters);
    ValuesAreEqualled(filters);
    UniqueHolds(values);
    if value in values {
      var i :| 0 <= i < |values| && values[i] == value;
      assert Lets(filters[i], value);
    }
    if i :| 0 <= i < |filters| && Lets(filters[i], value) {
      assert values[i] == value;
    }
  }

  /** A pattern that names its events takes those and no other. */
  lemma NamedAreTaken(pattern: Pattern, event: Event)
    requires ExactEvents(pattern).Some?
    ensures event in ExactEvents(pattern).value <==> Takes(pattern, event)
  {
    var sources, detailTypes := ExactValues(pattern.sources).value, ExactValues(pattern.detailTypes).value;
    ExactValuesPass(pattern.sources, event.0);
    ExactValuesPass(pattern.detailTypes, event.1);
    FlatMapHolds(sources, Pairs(detailTypes), event);
    if event in ExactEvents(pattern).value {
      var i :| 0 <= i < |sources| && event in Pairs(detailTypes)(sources[i]);
      assert sources[i] in sources && event.1 in detailTypes;
    }
    if event.0 in sources && event.1 in detailTypes {
      var i :| 0 <= i < |sources| && sources[i] == event.0;
      var k :| 0 <= k < |detailTypes| && detailTypes[k] == event.1;
      assert Pairs(detailTypes)(sources[i])[k] == event;
    }
  }

  lemma {:induction false} PairsApart(sources: seq<string>, detailTypes: seq<string>)
    requires NoRepeats(sources) && NoRepeats(detailTypes)
    ensures NoRepeats(FlatMap(sources, Pairs(detailTypes)))
    ensures |FlatMap(sources, Pairs(detailTypes))| == |sources| * |detailTypes|
  {
    if |sources| > 0 {
      var init, last := sources[..|sources| - 1], sources[|sources| - 1];
      PairsApart(init, detailTypes);
      var before, more := FlatMap(init, Pairs(detailTypes)), Pairs(detailTypes)(last);
      forall event | event in before ensures event !in more {
        FlatMapHolds(init, Pairs(detailTypes), event);
        var i :| 0 <= i < |init| && event in Pairs(detailTypes)(init[i]);
        assert event.0 == init[i] && sources[i] == init[i] && sources[|init|] == last;
      }
      NoRepeatsConcat(before, more);
      ProductMore(|init|, |detailTypes|);
    }
  }

  /** It names each event once, and never more than one address may stand for. */
  lemma NamedOnceWithinCap(pattern: Pattern)
    requires ExactEvents(pattern).Some?
    ensures NoRepeats(ExactEvents(pattern).value) && |ExactEvents(pattern).value| <= MOST_CHOICES
  {
    ExactValuesPass(pattern.sources, "");
    ExactValuesPass(pattern.detailTypes, "");
    PairsApart(ExactValues(pattern.sources).value, ExactValues(pattern.detailTypes).value);
  }
}
