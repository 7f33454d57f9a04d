/** Nothing claimed is lost, no two entries share an id, and who an address belongs to. */
module ClaimLaws {
  import opened Wrappers
  import opened Seqs
  import opened Claims

  // ---- nothing is lost ----

  function Owners(settled: seq<Settled>): seq<Candidate> {
    seq(|settled|, i requires 0 <= i < |settled| => settled[i].candidate)
  }

  function Said(duplicates: seq<Duplicate>): seq<Candidate> {
    seq(|duplicates|, i requires 0 <= i < |duplicates| => duplicates[i].candidate)
  }

  lemma {:induction false} RoleCounts(claims: seq<Candidate>, role: Option<Contribution>, c: Candidate)
    ensures multiset(ByRole(claims, role))[c] == if RoleOf(c) == role then multiset(claims)[c] else 0
  {
    if |claims| > 0 {
      var init, last := claims[..|claims| - 1], claims[|claims| - 1];
      RoleCounts(init, role, c);
      assert claims == init + [last];
    }
  }

  lemma RolesPartition(claims: seq<Candidate>)
    ensures multiset(claims)
         == multiset(ByRole(claims, None)) + multiset(ByRole(claims, Some(Page)))
             + multiset(ByRole(claims, Some(Layout)))
  {
    var all := multiset(ByRole(claims, None)) + multiset(ByRole(claims, Some(Page)))
      + multiset(ByRole(claims, Some(Layout)));
    forall c ensures multiset(claims)[c] == all[c] {
      RoleCounts(claims, None, c);
      RoleCounts(claims, Some(Page), c);
      RoleCounts(claims, Some(Layout), c);
      var role := RoleOf(c);
      assert role.None? || role.value.Page? || role.value.Layout?;
    }
  }

  lemma OwnersConcat(a: seq<Settled>, b: seq<Settled>)
    ensures Owners(a + b) == Owners(a) + Owners(b)
  {
  }

  lemma SaidConcat(a: seq<Duplicate>, b: seq<Duplicate>)
    ensures Said(a + b) == Said(a) + Said(b)
  {
  }

  /** The first of a kind and the rest said beside it are the kind. */
  lemma FirstAndRest(kind: seq<Candidate>)
    ensures kind == OneOf(kind) + Said(AfterFirst(kind))
  {
  }

  /** Of the claims kept at an address, each is drawn or said, once. */
  lemma ClaimsAccounted(claims: seq<Candidate>)
    ensures multiset(claims) == multiset(Owners(SettledFrom(claims))) + multiset(Said(DuplicatesFrom(claims)))
    ensures |claims| == |SettledFrom(claims)| + |DuplicatesFrom(claims)|
  {
    var verbs, pages, layouts := ByRole(claims, None), ByRole(claims, Some(Page)), ByRole(claims, Some(Layout));
    RolesPartition(claims);
    OwnersConcat(Answers(verbs, pages), LaidOut(layouts));
    SaidConcat(AfterFirst(verbs), AfterFirst(pages));
    FirstAndRest(verbs);
    FirstAndRest(pages);
    assert Owners(LaidOut(layouts)) == layouts;
    assert Owners(Answers(verbs, pages)) == OneOf(verbs) + OneOf(pages);
    Regrouped(OneOf(verbs), OneOf(pages), layouts, Said(AfterFirst(verbs)), Said(AfterFirst(pages)));
    SameSize(claims, SettledFrom(claims), DuplicatesFrom(claims));
  }

  function OneOf(kind: seq<Candidate>): seq<Candidate> {
    if |kind| == 0 then [] else [kind[0]]
  }

  lemma Regrouped(a: seq<Candidate>, b: seq<Candidate>, c: seq<Candidate>, d: seq<Candidate>, e: seq<Candidate>)
    ensures multiset(a + d) + multiset(b + e) + multiset(c) == multiset(a + b + c) + multiset(d + e)
  {
  }

  lemma SameSize(claims: seq<Candidate>, settled: seq<Settled>, duplicates: seq<Duplicate>)
    requires multiset(claims) == multiset(Owners(settled)) + multiset(Said(duplicates))
    ensures |claims| == |settled| + |duplicates|
  {
    assert |multiset(claims)| == |multiset(Owners(settled))| + |multiset(Said(duplicates))|;
    assert |multiset(Owners(settled))| == |Owners(settled)|;
    assert |multiset(Said(duplicates))| == |Said(duplicates)|;
    assert |multiset(claims)| == |claims|;
  }

  /** Every claim kept, address by address. */
  function Keeping(added: seq<Candidate>): string -> seq<Candidate> {
    (id: string) => KeptAt(added, id)
  }

  function AllKept(added: seq<Candidate>): seq<Candidate> {
    FlatMap(IdsOf(added), Keeping(added))
  }

  lemma {:induction false} AccountedAmong(ids: seq<string>, added: seq<Candidate>)
    ensures multiset(FlatMap(ids, Keeping(added)))
         == multiset(Owners(FlatMap(ids, Settling(added)))) + multiset(Said(FlatMap(ids, Saying(added))))
  {
    if |ids| > 0 {
      var init, last := ids[..|ids| - 1], KeptAt(added, ids[|ids| - 1]);
      AccountedAmong(init, added);
      ClaimsAccounted(last);
      OwnersConcat(FlatMap(init, Settling(added)), SettledFrom(last));
      SaidConcat(FlatMap(init, Saying(added)), DuplicatesFrom(last));
    }
  }

  /** After any claims, each one kept is drawn or said, once, and nothing else is. */
  lemma AllAccounted(added: seq<Candidate>)
    ensures multiset(AllKept(added)) == multiset(Owners(AllSettled(added))) + multiset(Said(AllDuplicates(added)))
  {
    AccountedAmong(IdsOf(added), added);
  }

  /** A claim added is kept exactly when its file claimed the address by none before it. */
  lemma {:induction false} KeptExactly(added: seq<Candidate>, id: string)
    ensures forall file ::
            Names(KeptAt(added, id), file)
            <==> exists i | 0 <= i < |added| :: added[i].id == id && FileOf(added[i]) == file
    ensures forall c :: c in KeptAt(added, id) <==>
              exists i | 0 <= i < |added| :: added[i] == c && c.id == id && FirstOfItsFile(added, i)
  {
    if |added| > 0 {
      var init, last := added[..|added| - 1], added[|added| - 1];
      KeptExactly(init, id);
      assert added == init + [last];
      forall i | 0 <= i < |init| ensures FirstOfItsFile(added, i) <==> FirstOfItsFile(init, i) {
        assert added[..i] == init[..i];
      }
      assert added[..|init|] == init;
      KeptMore(init, last, id);
    }
  }

  /** No claim before it at its address is its file's. */
  predicate FirstOfItsFile(added: seq<Candidate>, i: nat)
    requires i < |added|
  {
    !ClaimsAlready(added[..i], added[i].id, FileOf(added[i]))
  }

  predicate ClaimsAlready(added: seq<Candidate>, id: string, file: Option<string>) {
    exists j | 0 <= j < |added| :: added[j].id == id && FileOf(added[j]) == file
  }

  lemma KeptMore(init: seq<Candidate>, last: Candidate, id: string)
    requires forall file :: Names(KeptAt(init, id), file) <==> ClaimsAlready(init, id, file)
    requires forall c :: c in KeptAt(init, id) <==>
               exists i | 0 <= i < |init| :: init[i] == c && c.id == id && FirstOfItsFile(init, i)
    ensures forall file :: Names(KeptAt(init + [last], id), file) <==> ClaimsAlready(init + [last], id, file)
    ensures forall c :: c in KeptAt(init + [last], id) <==>
              c in KeptAt(init, id) || (c == last && last.id == id && !ClaimsAlready(init, id, FileOf(last)))
  {
    var added := init + [last];
    assert added[..|added| - 1] == init;
    forall file ensures Names(KeptAt(added, id), file) <==> ClaimsAlready(added, id, file) {
      NamesMore(KeptAt(init, id), last, file);
      if ClaimsAlready(init, id, file) {
        var j :| 0 <= j < |init| && init[j].id == id && FileOf(init[j]) == file;
        assert added[j] == init[j];
      }
      if last.id == id && FileOf(last) == file {
        assert added[|init|] == last;
      }
    }
  }

  lemma NamesMore(claims: seq<Candidate>, last: Candidate, file: Option<string>)
    ensures Names(claims + [last], file) <==> Names(claims, file) || FileOf(last) == file
  {
    if Names(claims, file) {
      var i :| 0 <= i < |claims| && FileOf(claims[i]) == file;
      assert (claims + [last])[i] == claims[i];
    }
    assert (claims + [last])[|claims|] == last;
  }

  // ---- whose an address is ----

  /** Whose the bare address is: the first verb kept there, else the first page. */
  function OwnerOf(claims: seq<Candidate>): Option<Candidate> {
    var verbs, pages := ByRole(claims, None), ByRole(claims, Some(Page));
    if |verbs| > 0 then Some(verbs[0]) else if |pages| > 0 then Some(pages[0]) else None
  }

  lemma {:induction false} ByRoleHolds(claims: seq<Candidate>, role: Option<Contribution>)
    ensures forall c :: c in ByRole(claims, role) <==> c in claims && RoleOf(c) == role
  {
    if |claims| > 0 {
      ByRoleHolds(claims[..|claims| - 1], role);
      assert claims == claims[..|claims| - 1] + [claims[|claims| - 1]];
    }
  }

  lemma {:induction false} KeptAreThere(added: seq<Candidate>, id: string)
    ensures forall c :: c in KeptAt(added, id) ==> c.id == id && c in added
    ensures forall i, j | 0 <= i < j < |KeptAt(added, id)| ::
            FileOf(KeptAt(added, id)[i]) != FileOf(KeptAt(added, id)[j])
  {
    if |added| > 0 {
      KeptAreThere(added[..|added| - 1], id);
    }
  }

  /** What is put after an id, to tell apart what is drawn beside the entry that answers. */
  function SuffixOf(settled: Settled): string
    requires settled.candidate.id <= settled.id
  {
    settled.id[|settled.candidate.id|..]
  }

  /**
   * Each entry settled at an id is a claim there under that id, its suffix none
   * for the owner and marked for the rest.
   */
  lemma SettledAt(claims: seq<Candidate>, id: string, k: nat)
    requires forall c :: c in claims ==> c.id == id
    requires k < |SettledFrom(claims)|
    ensures SettledFrom(claims)[k].candidate in claims
    ensures id <= SettledFrom(claims)[k].id
    ensures |SuffixOf(SettledFrom(claims)[k])| > 0 ==> SuffixOf(SettledFrom(claims)[k])[0] == '#'
    ensures |SuffixOf(SettledFrom(claims)[k])| == 0 <==> OwnerOf(claims) == Some(SettledFrom(claims)[k].candidate)
    ensures RoleOf(SettledFrom(claims)[k].candidate) == Some(Layout) ==> |SuffixOf(SettledFrom(claims)[k])| > 0
  {
    var verbs, pages, layouts := ByRole(claims, None), ByRole(claims, Some(Page)), ByRole(claims, Some(Layout));
    ByRoleHolds(claims, None);
    ByRoleHolds(claims, Some(Page));
    ByRoleHolds(claims, Some(Layout));
    var answers := Answers(verbs, pages);
    var one := SettledFrom(claims)[k];
    if k < |answers| {
      assert one == answers[k];
      if |verbs| > 0 && k == 0 {
        assert one.candidate == verbs[0] && verbs[0] in verbs;
      } else {
        assert one.candidate == pages[0] && pages[0] in pages;
      }
    } else {
      var layout := layouts[k - |answers|];
      assert layout in layouts;
      assert one == LaidOut(layouts)[k - |answers|];
      if |verbs| > 0 {
        assert verbs[0] in verbs;
      } else if |pages| > 0 {
        assert pages[0] in pages;
      }
    }
  }
}
