/** Whose the bare id of an address is, of all the claims on it and in whatever order they came. */
module ClaimOwners {
  import opened Wrappers
  import opened Seqs
  import opened Claims
  import opened ClaimLaws
  import opened ClaimIds

  // ---- the bare id ----

  /**
   * An entry stands at its own claim's bare id exactly when that claim is the
   * address's owner: the first verb kept there, else the first page; never a layout.
   */
  lemma BareIdIsTheOwners(added: seq<Candidate>, id: string, c: Candidate)
    ensures Settled(id, c) in AllSettled(added) && c.id == id <==> OwnerOf(KeptAt(added, id)) == Some(c)
    ensures OwnerOf(KeptAt(added, id)) == Some(c) ==> RoleOf(c) != Some(Layout)
  {
    if Settled(id, c) in AllSettled(added) && c.id == id {
      StandsForOwner(added, c);
    }
    if OwnerOf(KeptAt(added, id)) == Some(c) {
      OwnerStands(added, id, c);
    }
  }

  lemma StandsForOwner(added: seq<Candidate>, c: Candidate)
    requires Settled(c.id, c) in AllSettled(added)
    ensures OwnerOf(KeptAt(added, c.id)) == Some(c)
  {
    FlatMapHolds(IdsOf(added), Settling(added), Settled(c.id, c));
    var i :| 0 <= i < |IdsOf(added)| && Settled(c.id, c) in Settling(added)(IdsOf(added)[i]);
    KeptAreThere(added, IdsOf(added)[i]);
    SettledOwn(KeptAt(added, IdsOf(added)[i]), IdsOf(added)[i], Settled(c.id, c));
  }

  lemma OwnerStands(added: seq<Candidate>, id: string, c: Candidate)
    requires OwnerOf(KeptAt(added, id)) == Some(c)
    ensures Settled(id, c) in AllSettled(added) && c.id == id && RoleOf(c) != Some(Layout)
  {
    KeptAreThere(added, id);
    OwnerSettled(KeptAt(added, id), id, c);
    SettledOwn(KeptAt(added, id), id, Settled(id, c));
    InSettled(added, c, Settled(id, c));
  }

  /** Of the entries at one address, the one with nothing after its id is the owner's. */
  lemma SettledOwn(claims: seq<Candidate>, id: string, one: Settled)
    requires one in SettledFrom(claims)
    requires forall c :: c in claims ==> c.id == id
    ensures one.candidate in claims
    ensures one.id == id <==> OwnerOf(claims) == Some(one.candidate)
    ensures OwnerOf(claims) == Some(one.candidate) ==> RoleOf(one.candidate) != Some(Layout)
  {
    var k :| 0 <= k < |SettledFrom(claims)| && SettledFrom(claims)[k] == one;
    SettledAt(claims, id, k);
    assert one.id == id + SuffixOf(one);
  }

  lemma OwnerSettled(claims: seq<Candidate>, id: string, c: Candidate)
    requires forall d :: d in claims ==> d.id == id
    requires OwnerOf(claims) == Some(c)
    ensures c in claims && Settled(id, c) in SettledFrom(claims)
  {
    var verbs, pages := ByRole(claims, None), ByRole(claims, Some(Page));
    ByRoleHolds(claims, None);
    ByRoleHolds(claims, Some(Page));
    if |verbs| > 0 {
      assert verbs[0] in verbs;
    } else {
      assert pages[0] in pages;
    }
    assert Answers(verbs, pages)[0] == Settled(id, c);
    assert SettledFrom(claims)[0] == Settled(id, c);
  }

  // ---- whose it is, of all that claimed it ----

  /** What is added at an id, in order. */
  function AddedAt(added: seq<Candidate>, id: string): seq<Candidate> {
    if |added| == 0 then []
    else
      var before, last := AddedAt(added[..|added| - 1], id), added[|added| - 1];
      if last.id == id then before + [last] else before
  }

  /** A file is of one kind: what its ways in contribute to follows from its name. */
  predicate OneRolePerFile(added: seq<Candidate>) {
    forall i, j | 0 <= i < |added| && 0 <= j < |added| ::
      FileOf(added[i]) == FileOf(added[j]) ==> RoleOf(added[i]) == RoleOf(added[j])
  }

  /** A claim dropped for its file's sake leaves one of its kind. */
  lemma DroppedLeavesKind(added: seq<Candidate>, id: string, last: Candidate)
    requires OneRolePerFile(added + [last]) && Names(KeptAt(added, id), FileOf(last))
    ensures |ByRole(KeptAt(added, id), RoleOf(last))| > 0
  {
    var kept := KeptAt(added, id);
    KeptAreThere(added, id);
    var k :| 0 <= k < |kept| && FileOf(kept[k]) == FileOf(last);
    assert kept[k] in added;
    var i :| 0 <= i < |added| && added[i] == kept[k];
    assert (added + [last])[i] == kept[k] && (added + [last])[|added|] == last;
    ByRoleHolds(kept, RoleOf(last));
    assert kept[k] in kept;
  }

  /** Of each kind the first kept at an id is the first added there. */
  lemma {:induction false} FirstKeptIsFirstAdded(added: seq<Candidate>, id: string, role: Option<Contribution>)
    requires OneRolePerFile(added)
    ensures SameFirst(ByRole(KeptAt(added, id), role), ByRole(AddedAt(added, id), role))
  {
    if |added| > 0 {
      var init, last := added[..|added| - 1], added[|added| - 1];
      assert added == init + [last];
      FirstKeptIsFirstAdded(init, id, role);
      if last.id == id && Names(KeptAt(init, id), FileOf(last)) {
        DroppedLeavesKind(init, id, last);
      }
      FirstStays(init, last, id, role);
    }
  }

  lemma FirstStays(init: seq<Candidate>, last: Candidate, id: string, role: Option<Contribution>)
    requires SameFirst(ByRole(KeptAt(init, id), role), ByRole(AddedAt(init, id), role))
    requires last.id == id && Names(KeptAt(init, id), FileOf(last)) ==> |ByRole(KeptAt(init, id), RoleOf(last))| > 0
    ensures SameFirst(ByRole(KeptAt(init + [last], id), role), ByRole(AddedAt(init + [last], id), role))
  {
    AddedMore(init, last);
    ByRoleMore(KeptAt(init, id), last, role);
    ByRoleMore(AddedAt(init, id), last, role);
    assert (init + [last])[..|init|] == init;
  }

  predicate SameFirst(kept: seq<Candidate>, added: seq<Candidate>) {
    (|kept| == 0 <==> |added| == 0) && (|kept| > 0 ==> kept[0] == added[0])
  }

  lemma ByRoleMore(claims: seq<Candidate>, last: Candidate, role: Option<Contribution>)
    ensures ByRole(claims + [last], role)
         == if RoleOf(last) == role then ByRole(claims, role) + [last] else ByRole(claims, role)
  {
    assert (claims + [last])[..|claims|] == claims;
  }

  /**
   * The bare id belongs to the first verb that claimed the address, if any did,
   * whatever came before it, and else to the first page; never to a layout.
   */
  lemma BareIdIsTheFirstClaims(added: seq<Candidate>, id: string, c: Candidate)
    requires OneRolePerFile(added)
    ensures Settled(id, c) in AllSettled(added) && c.id == id <==> OwnerOf(AddedAt(added, id)) == Some(c)
    ensures OwnerOf(AddedAt(added, id)) == Some(c) ==> RoleOf(c) != Some(Layout)
  {
    BareIdIsTheOwners(added, id, c);
    FirstKeptIsFirstAdded(added, id, None);
    FirstKeptIsFirstAdded(added, id, Some(Page));
  }

  /** A verb owns the bare id exactly when any verb claimed the address. */
  lemma AnyVerbOwns(added: seq<Candidate>, id: string)
    requires OneRolePerFile(added)
    ensures (exists v :: RoleOf(v).None? && v.id == id && Settled(id, v) in AllSettled(added))
       <==> exists i | 0 <= i < |added| :: added[i].id == id && RoleOf(added[i]).None?
  {
    var verbs := ByRole(AddedAt(added, id), None);
    ByRoleHolds(AddedAt(added, id), None);
    AddedAtHolds(added, id);
    if i :| 0 <= i < |added| && added[i].id == id && RoleOf(added[i]).None? {
      assert added[i] in AddedAt(added, id);
      assert added[i] in verbs;
      assert verbs[0] in verbs;
      BareIdIsTheFirstClaims(added, id, verbs[0]);
    }
    if v :| RoleOf(v).None? && v.id == id && Settled(id, v) in AllSettled(added) {
      BareIdIsTheFirstClaims(added, id, v);
      OwnerAmong(AddedAt(added, id), v);
      var i :| 0 <= i < |added| && added[i] == v;
    }
  }

  lemma OwnerAmong(claims: seq<Candidate>, c: Candidate)
    requires OwnerOf(claims) == Some(c)
    ensures c in claims
  {
    ByRoleHolds(claims, None);
    ByRoleHolds(claims, Some(Page));
    assert c in ByRole(claims, None) || c in ByRole(claims, Some(Page));
  }

  lemma {:induction false} AddedAtHolds(added: seq<Candidate>, id: string)
    ensures forall c :: c in AddedAt(added, id) <==> c in added && c.id == id
  {
    if |added| > 0 {
      AddedAtHolds(added[..|added| - 1], id);
      assert added == added[..|added| - 1] + [added[|added| - 1]];
    }
  }

  // ---- in whatever order the kinds come ----

  /** What a kind keeps at an id follows from the claims of that kind alone. */
  lemma {:induction false} KeptByKind(added: seq<Candidate>, id: string, role: Option<Contribution>)
    requires OneRolePerFile(added)
    ensures ByRole(KeptAt(added, id), role) == KeptAt(ByRole(added, role), id)
  {
    if |added| > 0 {
      var init, last := added[..|added| - 1], added[|added| - 1];
      assert added == init + [last];
      KeptByKind(init, id, role);
      AddedMore(init, last);
      ByRoleMore(init, last, role);
      ByRoleMore(KeptAt(init, id), last, role);
      AddedMore(ByRole(init, role), last);
      if RoleOf(last) == role {
        NamedInKind(init, id, last);
      }
    }
  }

  /** A file that claims an id already does so among the claims of its kind. */
  lemma NamedInKind(init: seq<Candidate>, id: string, last: Candidate)
    requires OneRolePerFile(init + [last])
    ensures Names(ByRole(KeptAt(init, id), RoleOf(last)), FileOf(last)) <==> Names(KeptAt(init, id), FileOf(last))
  {
    var kept, role := KeptAt(init, id), RoleOf(last);
    var kind := ByRole(kept, role);
    ByRoleHolds(kept, role);
    KeptAreThere(init, id);
    if k :| 0 <= k < |kept| && FileOf(kept[k]) == FileOf(last) {
      assert kept[k] in kept && kept[k] in init;
      var i :| 0 <= i < |init| && init[i] == kept[k];
      assert (init + [last])[i] == kept[k] && (init + [last])[|init|] == last;
      assert kept[k] in kind;
      var n :| 0 <= n < |kind| && kind[n] == kept[k];
    }
    if n :| 0 <= n < |kind| && FileOf(kind[n]) == FileOf(last) {
      assert kind[n] in kind;
      var k :| 0 <= k < |kept| && kept[k] == kind[n];
    }
  }

  /**
   * Verbs, pages and layouts may arrive in any order among one another: two runs
   * of claims with the same verbs, the same pages and the same layouts, each kind
   * in its own order, settle the same entries and say the same duplicates.
   */
  lemma KindsInAnyOrder(added: seq<Candidate>, other: seq<Candidate>)
    requires OneRolePerFile(added) && OneRolePerFile(other)
    requires forall role :: ByRole(added, role) == ByRole(other, role)
    ensures forall id :: SettledFrom(KeptAt(added, id)) == SettledFrom(KeptAt(other, id))
    ensures forall id :: DuplicatesFrom(KeptAt(added, id)) == DuplicatesFrom(KeptAt(other, id))
    ensures forall one :: one in AllSettled(added) <==> one in AllSettled(other)
  {
    forall id
      ensures SettledFrom(KeptAt(added, id)) == SettledFrom(KeptAt(other, id))
      ensures DuplicatesFrom(KeptAt(added, id)) == DuplicatesFrom(KeptAt(other, id))
    {
      KeptByKind(added, id, None);
      KeptByKind(other, id, None);
      KeptByKind(added, id, Some(Page));
      KeptByKind(other, id, Some(Page));
      KeptByKind(added, id, Some(Layout));
      KeptByKind(other, id, Some(Layout));
    }
    forall one ensures one in AllSettled(added) <==> one in AllSettled(other) {
      AlsoSettled(added, other, one);
      AlsoSettled(other, added, one);
    }
  }

  lemma AlsoSettled(added: seq<Candidate>, other: seq<Candidate>, one: Settled)
    requires forall id :: SettledFrom(KeptAt(added, id)) == SettledFrom(KeptAt(other, id))
    ensures one in AllSettled(added) ==> one in AllSettled(other)
  {
    if one in AllSettled(added) {
      FlatMapHolds(IdsOf(added), Settling(added), one);
      var i :| 0 <= i < |IdsOf(added)| && one in Settling(added)(IdsOf(added)[i]);
      var id := IdsOf(added)[i];
      KeptAreThere(added, id);
      KeptAreThere(other, id);
      assert one in SettledFrom(KeptAt(other, id));
      SettledOwn(KeptAt(other, id), id, one);
      InSettled(other, one.candidate, one);
    }
  }

  lemma InSettled(added: seq<Candidate>, c: Candidate, one: Settled)
    requires c in added && one in SettledFrom(KeptAt(added, c.id))
    ensures one in AllSettled(added)
  {
    IdsHold(added);
    var at :| 0 <= at < |added| && added[at] == c;
    assert c.id in IdsOf(added);
    var i :| 0 <= i < |IdsOf(added)| && IdsOf(added)[i] == c.id;
    FlatMapHolds(IdsOf(added), Settling(added), one);
    assert one in Settling(added)(IdsOf(added)[i]);
  }
}
