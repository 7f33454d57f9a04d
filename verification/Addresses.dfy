/**
 * The address a call is sent to, read part by part and joined (`readPart`,
 * `joined`, `awaitingOf`, `readAddress` and `collapsed` in `address.ts`).
 */
module Addresses {
  import opened Wrappers
  import opened Seqs
  import opened Text
  import opened ChannelNames

  datatype Via = AsLiteral | AsTemplate | AsOther(id: nat)

  /** Why a name could not be read. Only the environment names what is missing. */
  datatype Refusal =
    | FromEnvironment(variable: Option<string>, otherwise: Option<string>)
    | Dynamic(text: string)
    | OtherRefusal(id: nat)

  datatype Resolution =
    | Channel(name: string, names: seq<string>, via: Via)
    | Refused(refusal: Refusal)

  datatype AwaitedPart =
    | Known(text: string)
    | Awaited(environment: string, forms: Option<seq<string>>, otherwise: Option<string>)

  /** Where an address part is written: nowhere at this element, under a key, or as an expression already read. */
  datatype Written = Written(key: Option<string>, read: Resolution)

  type Slots = seq<Option<Written>>

  datatype Part =
    | Fixed(text: string)
    | Located(absent: Option<string>, unwrittenIsNone: bool, forms: Option<seq<string>>)

  /** How a name is found inside a longer spelling of it: what the forms of a part are tried with. */
  type NameWithin = (string, seq<string>) -> string

  const MOST_CHOICES := MOST_NAMES

  // ---- one part ----

  function Inside(within: NameWithin, name: string, forms: Option<seq<string>>): string {
    within(name, forms.GetOr([]))
  }

  function WithForms(within: NameWithin, channel: Resolution, forms: Option<seq<string>>): Resolution
    requires channel.Channel?
  {
    if forms.None? then channel
    else
      var names := seq(|channel.names|, i requires 0 <= i < |channel.names| => within(channel.names[i], forms.value));
      Channel(within(channel.name, forms.value), Unique(names), channel.via)
  }

  /** A list of one place is read as that place whatever element is asked for. */
  function SlotAt(slots: Slots, index: nat): Option<Written> {
    if |slots| == 1 then slots[0] else if index < |slots| then slots[index] else None
  }

  function WrittenAt(located: seq<Slots>, index: nat): seq<Written> {
    if |located| == 0 then []
    else
      var rest := WrittenAt(located[1..], index);
      var slot := SlotAt(located[0], index);
      if slot.None? then rest else [slot.value] + rest
  }

  function ResolutionOf(written: Written): Resolution {
    if written.key.Some? then Channel(written.key.value, [written.key.value], AsLiteral) else written.read
  }

  /** The first place that reads as a name, else the refusal of the first place. */
  function FirstRead(written: seq<Written>): Resolution
    requires |written| > 0
  {
    if ResolutionOf(written[0]).Channel? || |written| == 1 then ResolutionOf(written[0])
    else
      var rest := FirstRead(written[1..]);
      if rest.Channel? then rest else ResolutionOf(written[0])
  }

  function ReadPart(within: NameWithin, part: Part, located: seq<Slots>, index: nat, fallback: string): Resolution {
    match part
    case Fixed(text) => Channel(text, [text], AsLiteral)
    case Located(absent, _, forms) =>
      var written := WrittenAt(located, index);
      if |written| == 0 then
        if absent.None? then Refused(Dynamic(fallback)) else Channel(absent.value, [absent.value], AsLiteral)
      else
        var found := FirstRead(written);
        if found.Channel? then WithForms(within, found, forms) else found
  }

  // ---- the parts joined ----

  predicate AllChannels(readings: seq<Resolution>) {
    forall i | 0 <= i < |readings| :: readings[i].Channel?
  }

  function FirstRefused(readings: seq<Resolution>): Resolution
    requires !AllChannels(readings)
  {
    if !readings[0].Channel? then readings[0] else FirstRefused(readings[1..])
  }

  /** Every name so far with every name of one more part after it. */
  function Separated(heads: seq<string>, names: seq<string>, first: bool): seq<string> {
    if |heads| == 0 then [] else Separated(heads[..|heads| - 1], names, first) + After(heads[|heads| - 1], names, first)
  }

  function After(head: string, names: seq<string>, first: bool): seq<string> {
    seq(|names|, i requires 0 <= i < |names| => Followed(head, names[i], first))
  }

  function Followed(head: string, name: string, first: bool): string {
    if first then name else head + ['/'] + name
  }

  /** The names the parts combine to, or none past the most one address may stand for. */
  function Combined(parts: seq<Resolution>): Option<seq<string>>
    requires AllChannels(parts)
  {
    if |parts| == 0 then Some([""])
    else
      var before := Combined(parts[..|parts| - 1]);
      var names := parts[|parts| - 1].names;
      if before.None? || |before.value| * |names| > MOST_CHOICES then None
      else Some(Separated(before.value, names, |parts| == 1))
  }

  function NamesOfParts(parts: seq<Resolution>): seq<string>
    requires AllChannels(parts)
  {
    seq(|parts|, i requires 0 <= i < |parts| => parts[i].name)
  }

  function ViaOf(parts: seq<Resolution>): Via
    requires AllChannels(parts) && |parts| > 0
  {
    if exists i | 0 <= i < |parts| :: parts[i].via.AsTemplate? then AsTemplate else parts[|parts| - 1].via
  }

  function Joined(readings: seq<Resolution>, fallback: string): Resolution
    requires |readings| > 0
  {
    if !AllChannels(readings) then FirstRefused(readings)
    else if |readings| == 1 then readings[0]
    else
      var names := Combined(readings);
      if names.None? then Refused(Dynamic(fallback))
      else Channel(Join(NamesOfParts(readings), '/'), Unique(names.value), ViaOf(readings))
  }

  method JoinParts(readings: seq<Resolution>, fallback: string) returns (resolution: Resolution)
    requires |readings| > 0
    ensures resolution == Joined(readings, fallback)
  {
    if !AllChannels(readings) {
      return FirstRefused(readings);
    }
    if |readings| == 1 {
      return readings[0];
    }
    var names := [""];
    for position := 0 to |readings|
      invariant Combined(readings[..position]) == Some(names)
    {
      TakeMore(readings, position);
      if |names| * |readings[position].names| > MOST_CHOICES {
        CombinedStops(readings, position + 1);
        return Refused(Dynamic(fallback));
      }
      names := Separated(names, readings[position].names, position == 0);
    }
    assert readings[..|readings|] == readings;
    return Channel(Join(NamesOfParts(readings), '/'), Unique(names), ViaOf(readings));
  }

  /** Past the most there may be, further parts do not bring the names back. */
  lemma {:induction false} CombinedStops(parts: seq<Resolution>, k: nat)
    requires AllChannels(parts) && k <= |parts| && Combined(parts[..k]).None?
    ensures Combined(parts).None?
    decreases |parts|
  {
    if k < |parts| {
      var before := parts[..|parts| - 1];
      assert before[..k] == parts[..k];
      CombinedStops(before, k);
    } else {
      assert parts[..k] == parts;
    }
  }

  // ---- what an address waits for ----

  function FormsOf(part: Part): Option<seq<string>> {
    if part.Fixed? then None else part.forms
  }

  /** What is to stand for a part once every variable is known, where nothing but a variable is missing. */
  function AwaitedOf(within: NameWithin, part: Part, reading: Resolution): Option<AwaitedPart> {
    match reading
    case Channel(name, names, _) => if |names| == 1 then Some(Known(name)) else None
    case Refused(refusal) =>
      if !refusal.FromEnvironment? || refusal.variable.None? then None
      else
        var otherwise := if refusal.otherwise.None? then None
          else Some(Inside(within, refusal.otherwise.value, FormsOf(part)));
        Some(Awaited(refusal.variable.value, FormsOf(part), otherwise))
  }

  /** Each part is read as one name, or waits on a variable. */
  predicate OnlyVariablesMissing(within: NameWithin, parts: seq<Part>, readings: seq<Resolution>)
    requires |parts| == |readings|
  {
    forall i | 0 <= i < |readings| :: AwaitedOf(within, parts[i], readings[i]).Some?
  }

  function Awaiting(within: NameWithin, parts: seq<Part>, readings: seq<Resolution>): Option<seq<AwaitedPart>>
    requires |parts| == |readings|
  {
    if !OnlyVariablesMissing(within, parts, readings) || AllChannels(readings) then None
    else Some(seq(|readings|,
        i requires 0 <= i < |readings| => AwaitedOf(within, parts[i], readings[i]).GetOr(Known(""))))
  }

  method AwaitingOf(
      within: NameWithin, parts: seq<Part>, readings: seq<Resolution>)
      returns (awaiting: Option<seq<AwaitedPart>>)
    requires |parts| == |readings|
    ensures awaiting == Awaiting(within, parts, readings)
  {
    var awaited: seq<AwaitedPart> := [];
    for position := 0 to |readings|
      invariant |awaited| == position
      invariant forall i | 0 <= i < position :: AwaitedOf(within, parts[i], readings[i]) == Some(awaited[i])
    {
      var one := AwaitedOf(within, parts[position], readings[position]);
      if one.None? {
        return None;
      }
      awaited := awaited + [one.value];
    }
    assert forall i | 0 <= i < |awaited| :: readings[i].Channel? <==> awaited[i].Known?;
    assert OnlyVariablesMissing(within, parts, readings);
    assert awaited == seq(|readings|,
      i requires 0 <= i < |readings| => AwaitedOf(within, parts[i], readings[i]).GetOr(Known("")));
    return if exists i | 0 <= i < |awaited| :: awaited[i].Awaited? then Some(awaited) else None;
  }

  // ---- every element ----

  /** The longest list the parts' places walked, and one where none walked a list. */
  function CountOf(located: seq<seq<Slots>>): nat {
    if |located| == 0 then 1 else Larger(CountOfPart(located[0]), CountOf(located[1..]))
  }

  function CountOfPart(located: seq<Slots>): nat {
    if |located| == 0 then 1 else Larger(|located[0]|, CountOfPart(located[1..]))
  }

  function Larger(a: nat, b: nat): nat {
    if a >= b then a else b
  }

  /** A part says the element is left out: nothing is written for it, and it says that is none. */
  predicate IsNone(parts: seq<Part>, located: seq<seq<Slots>>, index: nat)
    requires |located| == |parts|
  {
    exists p | 0 <= p < |parts| ::
      parts[p].Located? && parts[p].unwrittenIsNone && |WrittenAt(located[p], index)| == 0
  }

  function Readings(
      within: NameWithin, parts: seq<Part>, located: seq<seq<Slots>>, index: nat, fallback: string): seq<Resolution>
    requires |located| == |parts|
  {
    seq(|parts|, p requires 0 <= p < |parts| => ReadPart(within, parts[p], located[p], index, fallback))
  }

  /** The resolutions of the elements before a count, those left out left out. */
  function Resolutions(
      within: NameWithin, parts: seq<Part>, located: seq<seq<Slots>>, count: nat, fallback: string): seq<Resolution>
    requires |located| == |parts| && |parts| > 0
  {
    if count == 0 then []
    else
      var before := Resolutions(within, parts, located, count - 1, fallback);
      if IsNone(parts, located, count - 1) then before
      else before + [Joined(Readings(within, parts, located, count - 1, fallback), fallback)]
  }

  function ReadAddress(
      within: NameWithin, parts: seq<Part>, located: seq<seq<Slots>>, fallback: string): seq<Resolution>
    requires |located| == |parts| && |parts| > 0
  {
    Resolutions(within, parts, located, CountOf(located), fallback)
  }

  // ---- every element folded into one answer ----

  function ChannelsOf(elements: seq<Resolution>): (channels: seq<Resolution>)
    ensures AllChannels(channels)
  {
    if |elements| == 0 then []
    else
      var before := ChannelsOf(elements[..|elements| - 1]);
      if elements[|elements| - 1].Channel? then before + [elements[|elements| - 1]] else before
  }

  function AllNames(channels: seq<Resolution>): seq<string>
    requires AllChannels(channels)
  {
    if |channels| == 0 then [] else AllNames(channels[..|channels| - 1]) + channels[|channels| - 1].names
  }

  /** The elements' answers taken together: their names, or, where there are none, what the first said instead. */
  function Collapsed(elements: seq<Resolution>): Resolution {
    var channels := ChannelsOf(elements);
    if |channels| == 0 then if |elements| == 0 then Refused(Dynamic("")) else elements[0]
    else Channel(channels[0].name, Unique(AllNames(channels)), channels[0].via)
  }
}
