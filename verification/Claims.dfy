/**
 * Route modules claiming addresses, and how the claims on one address are
 * settled (`fsEntries`, `settle` and `contributing` in
 * `described-fs-routes.ts`).
 */
module Claims {
  import opened Wrappers
  import opened Seqs

  datatype Contribution = Page | Layout

  /** A claim's file, with the contribution of a page or layout, which a verb has not. */
  datatype Claim = Claim(file: string, contributes: Option<Contribution>)

  /** A way in, at the id its address has. */
  datatype Candidate = Candidate(id: string, entry: nat, claim: Option<Claim>)

  /** An entry drawn for a candidate. */
  datatype Settled = Settled(id: string, candidate: Candidate)

  /** A claim that is said rather than drawn, with the one drawn in its place. */
  datatype Duplicate = Duplicate(candidate: Candidate, kept: Candidate)

  function FileOf(candidate: Candidate): Option<string> {
    if candidate.claim.None? then None else Some(candidate.claim.value.file)
  }

  function RoleOf(candidate: Candidate): Option<Contribution> {
    if candidate.claim.None? then None else candidate.claim.value.contributes
  }

  // ---- what is kept ----

  predicate Names(claims: seq<Candidate>, file: Option<string>) {
    exists i | 0 <= i < |claims| :: FileOf(claims[i]) == file
  }

  /** The claims kept at an id: of those added there, in order, each file's first. */
  function KeptAt(added: seq<Candidate>, id: string): seq<Candidate> {
    if |added| == 0 then []
    else
      var before, last := KeptAt(added[..|added| - 1], id), added[|added| - 1];
      if last.id != id || Names(before, FileOf(last)) then before else before + [last]
  }

  /** The ids claimed, first come first. */
  function IdsOf(added: seq<Candidate>): seq<string> {
    if |added| == 0 then []
    else
      var before, last := IdsOf(added[..|added| - 1]), added[|added| - 1].id;
      if last in before then before else before + [last]
  }

  // ---- how an address is settled ----

  function ByRole(claims: seq<Candidate>, role: Option<Contribution>): seq<Candidate> {
    if |claims| == 0 then []
    else
      var before := ByRole(claims[..|claims| - 1], role);
      if RoleOf(claims[|claims| - 1]) == role then before + [claims[|claims| - 1]] else before
  }

  function LayoutId(layout: Candidate): string {
    layout.id + "#layout:" + FileOf(layout).GetOr("")
  }

  function PageId(page: Candidate): string {
    page.id + "#page"
  }

  function LaidOut(layouts: seq<Candidate>): seq<Settled> {
    seq(|layouts|, i requires 0 <= i < |layouts| => Settled(LayoutId(layouts[i]), layouts[i]))
  }

  function Answers(verbs: seq<Candidate>, pages: seq<Candidate>): seq<Settled> {
    (if |verbs| == 0 then [] else [Settled(verbs[0].id, verbs[0])]) +
    (if |pages| == 0 then [] else [Settled(if |verbs| == 0 then pages[0].id else PageId(pages[0]), pages[0])])
  }

  /** What is drawn for the claims at one id: the first verb, the first page, marked beside a verb, and each layout. */
  function SettledFrom(claims: seq<Candidate>): seq<Settled> {
    Answers(ByRole(claims, None), ByRole(claims, Some(Page))) + LaidOut(ByRole(claims, Some(Layout)))
  }

  /** The rest of a kind, each said beside its first. */
  function AfterFirst(kind: seq<Candidate>): seq<Duplicate> {
    if |kind| == 0 then [] else seq(|kind| - 1, i requires 0 <= i < |kind| - 1 => Duplicate(kind[i + 1], kind[0]))
  }

  function DuplicatesFrom(claims: seq<Candidate>): seq<Duplicate> {
    AfterFirst(ByRole(claims, None)) + AfterFirst(ByRole(claims, Some(Page)))
  }

  /** How the claims added at an id are settled, and which of them are said. */
  function Settling(added: seq<Candidate>): string -> seq<Settled> {
    (id: string) => SettledFrom(KeptAt(added, id))
  }

  function Saying(added: seq<Candidate>): string -> seq<Duplicate> {
    (id: string) => DuplicatesFrom(KeptAt(added, id))
  }

  function AllSettled(added: seq<Candidate>): seq<Settled> {
    FlatMap(IdsOf(added), Settling(added))
  }

  function AllDuplicates(added: seq<Candidate>): seq<Duplicate> {
    FlatMap(IdsOf(added), Saying(added))
  }

  // ---- the collector ----

  /** The table kept is of the claims added: every id claimed, in order, with the claims kept at it. */
  ghost predicate Collected(ids: seq<string>, claims: map<string, seq<Candidate>>, added: seq<Candidate>) {
    && ids == IdsOf(added)
    && (forall id :: id in claims <==> id in ids)
    && (forall id :: id in claims ==> claims[id] == KeptAt(added, id))
    && (forall id :: id !in ids ==> |KeptAt(added, id)| == 0)
  }

  lemma AddedMore(added: seq<Candidate>, candidate: Candidate)
    ensures IdsOf(added + [candidate])
         == if candidate.id in IdsOf(added) then IdsOf(added) else IdsOf(added) + [candidate.id]
    ensures forall id :: id != candidate.id ==> KeptAt(added + [candidate], id) == KeptAt(added, id)
    ensures KeptAt(added + [candidate], candidate.id)
         == if Names(KeptAt(added, candidate.id), FileOf(candidate)) then KeptAt(added, candidate.id)
            else KeptAt(added, candidate.id) + [candidate]
  {
    var more := added + [candidate];
    assert more[..|more| - 1] == added;
  }

  lemma CollectedMore(
      ids: seq<string>, claims: map<string, seq<Candidate>>, added: seq<Candidate>, candidate: Candidate)
    requires Collected(ids, claims, added) && !Names(KeptAt(added, candidate.id), FileOf(candidate))
    ensures Collected(
              if candidate.id in claims then ids else ids + [candidate.id],
              claims[candidate.id := KeptAt(added, candidate.id) + [candidate]],
              added + [candidate])
  {
    AddedMore(added, candidate);
  }

  lemma CollectedAgain(
      ids: seq<string>, claims: map<string, seq<Candidate>>, added: seq<Candidate>, candidate: Candidate)
    requires Collected(ids, claims, added) && Names(KeptAt(added, candidate.id), FileOf(candidate))
    ensures Collected(ids, claims, added + [candidate])
  {
    AddedMore(added, candidate);
    assert |KeptAt(added, candidate.id)| > 0;
  }

  /** Each id in turn adds what its claims settle to. */
  lemma OneMoreSettled(ids: seq<string>, claims: map<string, seq<Candidate>>, added: seq<Candidate>, i: nat)
    requires Collected(ids, claims, added) && i < |ids|
    ensures ids[i] in claims
    ensures FlatMap(ids[..i + 1], Settling(added)) == FlatMap(ids[..i], Settling(added)) + SettledFrom(claims[ids[i]])
    ensures FlatMap(ids[..i + 1], Saying(added)) == FlatMap(ids[..i], Saying(added)) + DuplicatesFrom(claims[ids[i]])
  {
    TakeMore(ids, i);
    assert ids[i] in ids;
  }

  /** The collector: claims kept by id, and the ghost list of all it was given. */
  class FsEntries {
    var ids: seq<string>
    var claims: map<string, seq<Candidate>>
    ghost var added: seq<Candidate>

    ghost predicate Valid()
      reads this
    {
      Collected(ids, claims, added)
    }

    constructor ()
      ensures Valid() && added == []
    {
      ids, claims, added := [], map[], [];
    }

    /** One more claim: nothing where its file claims the address already. */
    method Add(candidate: Candidate)
      requires Valid()
      modifies this
      ensures Valid() && added == old(added) + [candidate]
    {
      var id := candidate.id;
      var same := if id in claims then claims[id] else [];
      assert same == KeptAt(added, id);
      if Names(same, FileOf(candidate)) {
        CollectedAgain(ids, claims, added, candidate);
        added := added + [candidate];
        return;
      }
      CollectedMore(ids, claims, added, candidate);
      if id !in claims {
        ids := ids + [id];
      }
      claims := claims[id := same + [candidate]];
      added := added + [candidate];
    }

    /** Every way in, each claim settled, and every claim that is said instead. */
    method Entries() returns (settled: seq<Settled>, duplicates: seq<Duplicate>)
      requires Valid()
      ensures settled == AllSettled(added)
      ensures duplicates == AllDuplicates(added)
    {
      settled, duplicates := [], [];
      for i := 0 to |ids|
        invariant settled == FlatMap(ids[..i], Settling(added))
        invariant duplicates == FlatMap(ids[..i], Saying(added))
      {
        OneMoreSettled(ids, claims, added, i);
        var some, said := Settle(claims[ids[i]]);
        settled := settled + some;
        duplicates := duplicates + said;
      }
      assert ids[..|ids|] == ids;
    }
  }

  method Settle(claims: seq<Candidate>) returns (settled: seq<Settled>, duplicates: seq<Duplicate>)
    ensures settled == SettledFrom(claims)
    ensures duplicates == DuplicatesFrom(claims)
  {
    var verbs, pages := ByRole(claims, None), ByRole(claims, Some(Page));
    var ofVerbs := SayRest(verbs);
    var ofPages := SayRest(pages);
    duplicates := ofVerbs + ofPages;
    settled := [];
    if |verbs| > 0 {
      settled := settled + [Settled(verbs[0].id, verbs[0])];
    }
    if |pages| > 0 {
      settled := settled + [Settled(if |verbs| == 0 then pages[0].id else PageId(pages[0]), pages[0])];
    }
    var layouts := ByRole(claims, Some(Layout));
    assert settled == Answers(verbs, pages) + LaidOut(layouts)[..0];
    for i := 0 to |layouts|
      invariant settled == Answers(verbs, pages) + LaidOut(layouts)[..i]
    {
      TakeMore(LaidOut(layouts), i);
      Associates(Answers(verbs, pages), LaidOut(layouts)[..i], [LaidOut(layouts)[i]]);
      settled := settled + [Settled(LayoutId(layouts[i]), layouts[i])];
    }
    assert LaidOut(layouts)[..|layouts|] == LaidOut(layouts);
  }

  method SayRest(kind: seq<Candidate>) returns (said: seq<Duplicate>)
    ensures said == AfterFirst(kind)
  {
    said := [];
    if |kind| == 0 {
      return;
    }
    for i := 1 to |kind|
      invariant said == AfterFirst(kind)[..i - 1]
    {
      TakeMore(AfterFirst(kind), i - 1);
      said := said + [Duplicate(kind[i], kind[0])];
    }
  }
}
