/** Settled entries have ids of their own, and the bare id of an address goes to a verb, else a page. */
module ClaimIds {
  import opened Wrappers
  import opened Seqs
  import opened Claims
  import opened ClaimLaws

  function IdsIn(settled: seq<Settled>): seq<string> {
    seq(|settled|, i requires 0 <= i < |settled| => settled[i].id)
  }

  /** No id claimed holds the mark put before a suffix. */
  predicate Unmarked(added: seq<Candidate>) {
    forall i | 0 <= i < |added| :: '#' !in added[i].id
  }

  ghost predicate FilesApart(claims: seq<Candidate>) {
    forall i, j | 0 <= i < j < |claims| :: FileOf(claims[i]) != FileOf(claims[j])
  }

  lemma {:induction false} ByRoleApart(claims: seq<Candidate>, role: Option<Contribution>)
    requires FilesApart(claims)
    ensures FilesApart(ByRole(claims, role))
  {
    if |claims| > 0 {
      var init, last := claims[..|claims| - 1], claims[|claims| - 1];
      ByRoleApart(init, role);
      ByRoleHolds(init, role);
      var before := ByRole(init, role);
      forall i | 0 <= i < |before| ensures FileOf(before[i]) != FileOf(last) {
        assert before[i] in before;
        var k :| 0 <= k < |init| && init[k] == before[i];
        assert claims[k] == init[k] && claims[|claims| - 1] == last;
      }
    }
  }

  lemma LayoutIdsApart(a: Candidate, b: Candidate)
    requires a.id == b.id && FileOf(a).Some? && FileOf(b).Some? && FileOf(a) != FileOf(b)
    ensures LayoutId(a) != LayoutId(b)
  {
    var start := a.id + "#layout:";
    assert LayoutId(a)[|start|..] == FileOf(a).value && LayoutId(b)[|start|..] == FileOf(b).value;
  }

  lemma PageIsNoLayout(page: Candidate, layout: Candidate)
    requires page.id == layout.id
    ensures PageId(page) != LayoutId(layout)
  {
    var at := |page.id| + 1;
    assert PageId(page)[at] == "#page"[1];
    assert LayoutId(layout)[at] == "#layout:"[1];
  }

  /** At one address every entry settled has an id of its own. */
  lemma SettledApart(claims: seq<Candidate>, id: string)
    requires forall c :: c in claims ==> c.id == id
    requires FilesApart(claims)
    ensures NoRepeats(IdsIn(SettledFrom(claims)))
  {
    var verbs, pages, layouts := ByRole(claims, None), ByRole(claims, Some(Page)), ByRole(claims, Some(Layout));
    ByRoleHolds(claims, None);
    ByRoleHolds(claims, Some(Page));
    ByRoleHolds(claims, Some(Layout));
    ByRoleApart(claims, Some(Layout));
    var answers := Answers(verbs, pages);
    var settled := SettledFrom(claims);
    forall i, j | 0 <= i < j < |settled| ensures IdsIn(settled)[i] != IdsIn(settled)[j] {
      if j < |answers| {
        assert settled[i] == answers[0] && settled[j] == answers[1];
        assert verbs[0] in verbs && pages[0] in pages;
        assert |PageId(pages[0])| > |id|;
      } else {
        var layout := layouts[j - |answers|];
        assert layout in layouts && settled[j] == LaidOut(layouts)[j - |answers|];
        if |answers| <= i {
          var other := layouts[i - |answers|];
          assert other in layouts && settled[i] == LaidOut(layouts)[i - |answers|];
          LayoutIdsApart(other, layout);
        } else {
          assert settled[i] == answers[i];
          AnswerIsNoLayout(verbs, pages, i, layout, id);
        }
      }
    }
  }

  lemma AnswerIsNoLayout(verbs: seq<Candidate>, pages: seq<Candidate>, i: nat, layout: Candidate, id: string)
    requires forall c :: c in verbs || c in pages ==> c.id == id
    requires layout.id == id && i < |Answers(verbs, pages)|
    ensures Answers(verbs, pages)[i].id != LayoutId(layout)
  {
    assert |LayoutId(layout)| > |id|;
    if |verbs| > 0 && i == 0 {
      assert verbs[0] in verbs;
    } else {
      assert pages[0] in pages;
      PageIsNoLayout(pages[0], layout);
    }
  }

  // ---- every address ----

  lemma SettledOnce(added: seq<Candidate>, id: string)
    ensures NoRepeats(IdsIn(SettledFrom(KeptAt(added, id))))
  {
    KeptAreThere(added, id);
    SettledApart(KeptAt(added, id), id);
  }

  // ---- exactly when ids are distinct ----

  ghost predicate Disjoint(a: seq<Settled>, b: seq<Settled>) {
    forall id :: id in IdsIn(a) ==> id !in IdsIn(b)
  }

  lemma NoRepeatsExactly(a: seq<string>, b: seq<string>)
    ensures NoRepeats(a + b) <==> NoRepeats(a) && NoRepeats(b) && forall x :: x in a ==> x !in b
  {
    if NoRepeats(a) && NoRepeats(b) && forall x :: x in a ==> x !in b {
      NoRepeatsConcat(a, b);
    }
    if NoRepeats(a + b) {
      forall i, j | 0 <= i < j < |a| ensures a[i] != a[j] {
        assert (a + b)[i] == a[i] && (a + b)[j] == a[j];
      }
      forall i, j | 0 <= i < j < |b| ensures b[i] != b[j] {
        assert (a + b)[|a| + i] == b[i] && (a + b)[|a| + j] == b[j];
      }
      forall i, j | 0 <= i < |a| && 0 <= j < |b| ensures a[i] != b[j] {
        assert (a + b)[i] == a[i] && (a + b)[|a| + j] == b[j];
      }
    }
  }

  lemma {:induction false} IdsAmong(ids: seq<string>, settle: string -> seq<Settled>, drawn: string)
    ensures drawn in IdsIn(FlatMap(ids, settle)) <==> exists i | 0 <= i < |ids| :: drawn in IdsIn(settle(ids[i]))
  {
    if |ids| > 0 {
      var init, last := ids[..|ids| - 1], ids[|ids| - 1];
      IdsAmong(init, settle, drawn);
      assert IdsIn(FlatMap(ids, settle)) == IdsIn(FlatMap(init, settle)) + IdsIn(settle(last));
      if i :| 0 <= i < |init| && drawn in IdsIn(settle(init[i])) {
        assert drawn in IdsIn(settle(ids[i]));
      }
      if drawn in IdsIn(settle(last)) {
        assert drawn in IdsIn(settle(ids[|ids| - 1]));
      }
    }
  }

  /** Lists that each repeat no id repeat none together exactly when no two share one. */
  lemma {:induction false} ApartExactly(ids: seq<string>, settle: string -> seq<Settled>)
    requires forall id :: id in ids ==> NoRepeats(IdsIn(settle(id)))
    ensures NoRepeats(IdsIn(FlatMap(ids, settle)))
       <==> forall i, j | 0 <= i < j < |ids| :: Disjoint(settle(ids[i]), settle(ids[j]))
  {
    if |ids| > 0 {
      var init, last := ids[..|ids| - 1], ids[|ids| - 1];
      var before, more := FlatMap(init, settle), settle(last);
      assert ids == init + [last] && last in ids;
      ApartExactly(init, settle);
      assert IdsIn(before + more) == IdsIn(before) + IdsIn(more);
      NoRepeatsExactly(IdsIn(before), IdsIn(more));
      assert Disjoint(before, more) <==> forall i | 0 <= i < |init| :: Disjoint(settle(ids[i]), more) by {
        DisjointFromAll(init, settle, more);
        assert forall i | 0 <= i < |init| :: ids[i] == init[i];
      }
      assert forall i | 0 <= i < |init| :: ids[i] == init[i];
    }
  }

  lemma DisjointFromAll(ids: seq<string>, settle: string -> seq<Settled>, more: seq<Settled>)
    ensures Disjoint(FlatMap(ids, settle), more) <==> forall i | 0 <= i < |ids| :: Disjoint(settle(ids[i]), more)
  {
    forall drawn
      ensures drawn in IdsIn(FlatMap(ids, settle)) <==> exists i | 0 <= i < |ids| :: drawn in IdsIn(settle(ids[i]))
    {
      IdsAmong(ids, settle, drawn);
    }
  }

  lemma {:induction false} IdsHold(added: seq<Candidate>)
    ensures NoRepeats(IdsOf(added))
    ensures forall id :: id in IdsOf(added) <==> exists i | 0 <= i < |added| :: added[i].id == id
  {
    if |added| > 0 {
      var init := added[..|added| - 1];
      IdsHold(init);
      assert added == init + [added[|added| - 1]];
      forall i | 0 <= i < |init| ensures added[i] == init[i] {
      }
    }
  }

  // ---- what an address draws ----

  predicate HasRole(claims: seq<Candidate>, role: Option<Contribution>) {
    exists i | 0 <= i < |claims| :: RoleOf(claims[i]) == role
  }

  lemma HasRoleByRole(claims: seq<Candidate>, role: Option<Contribution>)
    ensures HasRole(claims, role) <==> |ByRole(claims, role)| > 0
  {
    var kind := ByRole(claims, role);
    ByRoleHolds(claims, role);
    if |kind| > 0 {
      assert kind[0] in kind;
    }
    if i :| 0 <= i < |claims| && RoleOf(claims[i]) == role {
      assert claims[i] in kind;
    }
  }

  /** Some claim is answered at the address itself. */
  predicate IsAnswered(claims: seq<Candidate>) {
    HasRole(claims, None) || HasRole(claims, Some(Page))
  }

  /** A page is drawn beside a verb. */
  predicate IsMarked(claims: seq<Candidate>) {
    HasRole(claims, None) && HasRole(claims, Some(Page))
  }

  ghost predicate HasLayout(claims: seq<Candidate>, file: string) {
    exists c :: c in claims && RoleOf(c) == Some(Layout) && FileOf(c).GetOr("") == file
  }

  /**
   * What the claims at an address draw after its id: nothing for a verb, and for
   * a page with no verb beside it; a page's mark with one; for a layout its file's.
   */
  ghost predicate DrawsAfter(claims: seq<Candidate>, suffix: string) {
    || (suffix == "" && IsAnswered(claims))
    || (suffix == "#page" && IsMarked(claims))
    || ("#layout:" <= suffix && HasLayout(claims, suffix[|"#layout:"|..]))
  }

  /** Settling claims on one address draws just those ids. */
  lemma SettlesWhatItDraws(claims: seq<Candidate>, id: string, drawn: string)
    requires forall c :: c in claims ==> c.id == id
    ensures drawn in IdsIn(SettledFrom(claims)) <==> id <= drawn && DrawsAfter(claims, drawn[|id|..])
  {
    var verbs, pages, layouts := ByRole(claims, None), ByRole(claims, Some(Page)), ByRole(claims, Some(Layout));
    ByRoleHolds(claims, None);
    ByRoleHolds(claims, Some(Page));
    ByRoleHolds(claims, Some(Layout));
    HasRoleByRole(claims, None);
    HasRoleByRole(claims, Some(Page));
    assert IdsIn(SettledFrom(claims)) == IdsIn(Answers(verbs, pages)) + IdsIn(LaidOut(layouts));
    AnswersDraw(verbs, pages, id, drawn);
    LayoutsDraw(claims, layouts, id, drawn);
  }

  lemma LayoutsDraw(claims: seq<Candidate>, layouts: seq<Candidate>, id: string, drawn: string)
    requires forall c :: c in layouts ==> c.id == id
    requires forall c :: c in layouts <==> c in claims && RoleOf(c) == Some(Layout)
    ensures drawn in IdsIn(LaidOut(layouts))
       <==> id <= drawn && "#layout:" <= drawn[|id|..] && HasLayout(claims, drawn[|id|..][|"#layout:"|..])
  {
    if k :| 0 <= k < |layouts| && IdsIn(LaidOut(layouts))[k] == drawn {
      assert layouts[k] in layouts && drawn == id + "#layout:" + FileOf(layouts[k]).GetOr("");
      assert drawn[|id|..] == "#layout:" + FileOf(layouts[k]).GetOr("");
    }
    if id <= drawn && "#layout:" <= drawn[|id|..] && HasLayout(claims, drawn[|id|..][|"#layout:"|..]) {
      var file := drawn[|id|..][|"#layout:"|..];
      var c :| c in claims && RoleOf(c) == Some(Layout) && FileOf(c).GetOr("") == file;
      var k :| 0 <= k < |layouts| && layouts[k] == c;
      assert drawn == id + "#layout:" + file;
      assert IdsIn(LaidOut(layouts))[k] == drawn;
    }
  }

  lemma AnswersDraw(verbs: seq<Candidate>, pages: seq<Candidate>, id: string, drawn: string)
    requires forall c :: c in verbs || c in pages ==> c.id == id
    ensures drawn in IdsIn(Answers(verbs, pages))
       <==> id <= drawn
            && ((drawn[|id|..] == "" && (|verbs| > 0 || |pages| > 0))
                || (drawn[|id|..] == "#page" && |verbs| > 0 && |pages| > 0))
  {
    assert id <= drawn && drawn[|id|..] == "" <==> drawn == id;
    assert id <= drawn && drawn[|id|..] == "#page" <==> drawn == id + "#page";
    AnswersAre(verbs, pages, id);
  }

  lemma AnswersAre(verbs: seq<Candidate>, pages: seq<Candidate>, id: string)
    requires forall c :: c in verbs || c in pages ==> c.id == id
    ensures IdsIn(Answers(verbs, pages))
         == if |verbs| > 0 && |pages| > 0 then [id, id + "#page"]
            else if |verbs| > 0 || |pages| > 0 then [id] else []
  {
    if |verbs| > 0 {
      assert verbs[0] in verbs;
    }
    if |pages| > 0 {
      assert pages[0] in pages;
    }
  }

  // ---- when two addresses draw one id ----

  /**
   * An address longer than another by a text is spelled like something the other
   * draws: by a page's mark, where the one has a page beside a verb and the other
   * is answered; or by a layout's mark and the start of a layout file's name,
   * whose end the longer address draws.
   */
  ghost predicate SpelledLike(short: seq<Candidate>, long: seq<Candidate>, more: string) {
    || (more == "#page" && IsMarked(short) && IsAnswered(long))
    || ("#layout:" <= more && exists end :: DrawsAfter(long, end) && HasLayout(short, more[|"#layout:"|..] + end))
  }

  /** One address claimed starts with another, and is spelled like something it draws. */
  ghost predicate Clash(added: seq<Candidate>, short: string, long: string) {
    short <= long && SpelledLike(KeptAt(added, short), KeptAt(added, long), long[|short|..])
  }

  predicate IsSuffix(suffix: string) {
    |suffix| > 0 ==> suffix[0] == '#'
  }

  lemma BeforePageMark(more: string, suffix: string)
    requires |more| > 0 && IsSuffix(suffix) && more + suffix == "#page"
    ensures more == "#page" && suffix == ""
  {
    assert forall k | 1 <= k < |"#page"| :: "#page"[k] != '#';
    ConcatAt(more, suffix);
  }

  lemma BeforeLayoutMark(more: string, suffix: string)
    requires |more| > 0 && IsSuffix(suffix) && "#layout:" <= more + suffix
    ensures "#layout:" <= more && (more + suffix)[|"#layout:"|..] == more[|"#layout:"|..] + suffix
  {
    assert forall k | 1 <= k < |"#layout:"| :: "#layout:"[k] != '#';
    ConcatAt(more, suffix);
    assert forall k | 0 <= k < |more| :: more[k] == (more + suffix)[k];
  }

  /** The shorter address draws the longer one and a suffix of its exactly where it is spelled like that. */
  lemma DrawsBoth(short: seq<Candidate>, long: seq<Candidate>, more: string, suffix: string)
    requires |more| > 0 && DrawsAfter(long, suffix) && DrawsAfter(short, more + suffix)
    ensures SpelledLike(short, long, more)
  {
    assert IsSuffix(suffix);
    if more + suffix == "#page" {
      BeforePageMark(more, suffix);
    } else {
      BeforeLayoutMark(more, suffix);
    }
  }

  lemma SpelledDrawsBoth(short: seq<Candidate>, long: seq<Candidate>, more: string) returns (suffix: string)
    requires SpelledLike(short, long, more)
    ensures DrawsAfter(long, suffix) && DrawsAfter(short, more + suffix)
  {
    if more == "#page" && IsMarked(short) && IsAnswered(long) {
      suffix := "";
      ConcatEmpty(more, suffix);
    } else {
      suffix :| DrawsAfter(long, suffix) && HasLayout(short, more[|"#layout:"|..] + suffix);
      assert (more + suffix)[|"#layout:"|..] == more[|"#layout:"|..] + suffix;
    }
  }

  /** Two addresses draw one id exactly when one is spelled like what the other draws. */
  lemma ClashExactly(added: seq<Candidate>, a: string, b: string)
    requires a != b
    ensures Disjoint(Settling(added)(a), Settling(added)(b)) <==> !Clash(added, a, b) && !Clash(added, b, a)
  {
    if !Disjoint(Settling(added)(a), Settling(added)(b)) {
      var drawn :| drawn in IdsIn(Settling(added)(a)) && drawn in IdsIn(Settling(added)(b));
      KeptSettles(added, a, drawn);
      KeptSettles(added, b, drawn);
      if |a| < |b| {
        DrawnClashes(added, a, b, drawn);
      } else {
        DrawnClashes(added, b, a, drawn);
      }
    }
    if Clash(added, a, b) {
      var _ := ClashDraws(added, a, b);
    }
    if Clash(added, b, a) {
      var _ := ClashDraws(added, b, a);
    }
  }

  lemma KeptSettles(added: seq<Candidate>, id: string, drawn: string)
    ensures drawn in IdsIn(Settling(added)(id)) <==> id <= drawn && DrawsAfter(KeptAt(added, id), drawn[|id|..])
  {
    KeptAreThere(added, id);
    SettlesWhatItDraws(KeptAt(added, id), id, drawn);
  }

  lemma DrawnClashes(added: seq<Candidate>, short: string, long: string, drawn: string)
    requires short <= drawn && long <= drawn && short != long && |short| <= |long|
    requires DrawsAfter(KeptAt(added, short), drawn[|short|..]) && DrawsAfter(KeptAt(added, long), drawn[|long|..])
    ensures Clash(added, short, long)
  {
    var more, suffix := drawn[|short|..|long|], drawn[|long|..];
    assert long == drawn[..|long|] && short == drawn[..|short|];
    assert short <= long && long[|short|..] == more && drawn[|short|..] == more + suffix;
    assert long[..|long|] == long;
    DrawsBoth(KeptAt(added, short), KeptAt(added, long), more, suffix);
  }

  lemma WrittenBehind(short: string, long: string, suffix: string)
    requires short <= long
    ensures long <= long + suffix && (long + suffix)[|long|..] == suffix
    ensures short <= long + suffix && (long + suffix)[|short|..] == long[|short|..] + suffix
  {
  }

  lemma ClashDraws(added: seq<Candidate>, short: string, long: string) returns (drawn: string)
    requires Clash(added, short, long)
    ensures drawn in IdsIn(Settling(added)(short)) && drawn in IdsIn(Settling(added)(long))
  {
    var more := long[|short|..];
    var suffix := SpelledDrawsBoth(KeptAt(added, short), KeptAt(added, long), more);
    drawn := long + suffix;
    WrittenBehind(short, long, suffix);
    KeptSettles(added, short, drawn);
    KeptSettles(added, long, drawn);
  }

  /**
   * No two entries have the same id exactly when no address claimed is another's
   * followed by a page's mark or a layout's, spelled like what is drawn there.
   */
  lemma IdsDistinctExactly(added: seq<Candidate>)
    ensures NoRepeats(IdsIn(AllSettled(added)))
       <==> forall i, j | 0 <= i < |IdsOf(added)| && 0 <= j < |IdsOf(added)| && i != j ::
              !Clash(added, IdsOf(added)[i], IdsOf(added)[j])
  {
    var ids, settle := IdsOf(added), Settling(added);
    IdsHold(added);
    forall id | id in ids ensures NoRepeats(IdsIn(settle(id))) {
      SettledOnce(added, id);
    }
    ApartExactly(ids, settle);
    forall i, j | 0 <= i < j < |ids|
      ensures Disjoint(settle(ids[i]), settle(ids[j]))
         <==> !Clash(added, ids[i], ids[j]) && !Clash(added, ids[j], ids[i])
    {
      ClashExactly(added, ids[i], ids[j]);
    }
  }

  /** In particular when no id claimed holds the mark put before a suffix. */
  lemma SettledIdsDistinct(added: seq<Candidate>)
    requires Unmarked(added)
    ensures NoRepeats(IdsIn(AllSettled(added)))
  {
    IdsHold(added);
    IdsDistinctExactly(added);
    var ids := IdsOf(added);
    forall i, j | 0 <= i < |ids| && 0 <= j < |ids| && i != j ensures !Clash(added, ids[i], ids[j]) {
      assert ids[i] in ids && ids[j] in ids;
      if Clash(added, ids[i], ids[j]) {
        ClashIsMarked(added, ids[i], ids[j]);
      }
    }
  }

  lemma ClashIsMarked(added: seq<Candidate>, short: string, long: string)
    requires Clash(added, short, long)
    ensures '#' in long
  {
    assert long[|short|] == '#';
  }

  // ---- an id that holds the mark ----

  function Claimed(id: string, file: string, role: Option<Contribution>): Candidate {
    Candidate(id, 0, Some(Claim(file, role)))
  }

  const MARKED := [
    Claimed("GET:/a", "a/+server.ts", None),
    Claimed("GET:/a", "a/+page.ts", Some(Page)),
    Claimed("GET:/a#page", "a#page/+server.ts", None)]

  /** A page beside a verb and the verb of an address spelled like the page's share an id. */
  lemma MarkedIdsCollide()
    ensures Clash(MARKED, "GET:/a", "GET:/a#page")
    ensures !NoRepeats(IdsIn(AllSettled(MARKED)))
  {
    MarkedKept();
    var one, two, three := MARKED[0], MARKED[1], MARKED[2];
    assert [one, two][0] == one && [one, two][1] == two && [three][0] == three;
    assert IsMarked([one, two]) && IsAnswered([three]);
    assert "GET:/a#page"[|"GET:/a"|..] == "#page";
    IdsDistinctExactly(MARKED);
    assert ["GET:/a", "GET:/a#page"][0] == "GET:/a" && ["GET:/a", "GET:/a#page"][1] == "GET:/a#page";
  }

  lemma MarkedKept()
    ensures KeptAt(MARKED, "GET:/a") == [MARKED[0], MARKED[1]]
    ensures KeptAt(MARKED, "GET:/a#page") == [MARKED[2]]
    ensures IdsOf(MARKED) == ["GET:/a", "GET:/a#page"]
  {
    var a, b := "GET:/a", "GET:/a#page";
    assert |a| != |b|;
    assert "a/+server.ts"[3] != "a/+page.ts"[3];
    KeptOfThree(MARKED[0], MARKED[1], MARKED[2]);
    assert MARKED == [MARKED[0], MARKED[1], MARKED[2]];
  }

  /** Two claims on one address by two files, and one on another. */
  lemma KeptOfThree(one: Candidate, two: Candidate, three: Candidate)
    requires one.id == two.id != three.id && FileOf(one) != FileOf(two)
    ensures KeptAt([one, two, three], one.id) == [one, two]
    ensures KeptAt([one, two, three], three.id) == [three]
    ensures IdsOf([one, two, three]) == [one.id, three.id]
  {
    KeptOfTwo(one, two);
    AddedMore([one, two], three);
    assert [one, two] + [three] == [one, two, three];
    assert !Names([], FileOf(three));
  }

  lemma KeptOfTwo(one: Candidate, two: Candidate)
    requires one.id == two.id && FileOf(one) != FileOf(two)
    ensures forall id :: KeptAt([one, two], id) == if id == one.id then [one, two] else []
    ensures IdsOf([one, two]) == [one.id]
  {
    KeptOfOne(one);
    AddedMore([one], two);
    assert [one] + [two] == [one, two];
    assert !Names([one], FileOf(two)) by {
      assert [one][0] == one;
    }
  }

  lemma KeptOfOne(one: Candidate)
    ensures forall id :: KeptAt([one], id) == if id == one.id then [one] else []
    ensures IdsOf([one]) == [one.id]
  {
    AddedMore([], one);
    assert [] + [one] == [one];
    assert !Names([], FileOf(one));
  }
}
