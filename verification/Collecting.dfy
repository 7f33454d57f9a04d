/**
 * What one pass over the application calls records, as a function of the calls:
 * the specification `Applications` is proved against, and what holds of it after
 * any sequence of calls.
 */
module Collecting {
  import opened Seqs
  import opened Wrappers
  import opened Mounts

  /** A target a helper binds to the application its call is written on, at the path described for it. */
  datatype HelperMount = HelperMount(declaration: Decl, at: Option<string>)

  /** A collection of applications a mount names a member of, and the members found in it. */
  datatype Registry = Registry(name: string, members: seq<Decl>)

  /** One `<app>.<method>(…)` call, with what the compiler answers about its arguments. */
  datatype AppCall = AppCall(
    receiver: Expr,
    receiverText: string,
    called: string,
    site: Site,
    firstString: Option<string>,
    firstIsPath: bool,
    arguments: seq<string>,
    registry: Option<Registry>,
    mounted: Option<Decl>,
    helper: Option<HelperMount>,
    writtenIsApp: bool,
    writtenText: string,
    mountPath: Option<string>)

  /** A collection mounted whole in which no application was found. */
  datatype UnreadRegistry = UnreadRegistry(registry: string, through: string, site: Site, at: Option<string>)

  datatype Collected = Collected(
    mounts: map<Decl, seq<Mount>>,
    installs: map<Decl, seq<Install>>,
    shifted: map<Decl, Option<string>>,
    unread: map<(string, string), UnreadRegistry>,
    shifts: bool)

  const NOTHING := Collected(map[], map[], map[], map[], false)

  /** What is already listed under a key, or nothing. */
  function Listed<T>(lists: map<Decl, seq<T>>, d: Decl): seq<T> {
    if d in lists then lists[d] else []
  }

  /** One mount recorded against each of several declarations, in turn. */
  function Hang(mounts: map<Decl, seq<Mount>>, targets: seq<Decl>, mount: Mount): map<Decl, seq<Mount>>
    decreases |targets|
  {
    if |targets| == 0 then mounts
    else Hang(mounts[targets[0] := Listed(mounts, targets[0]) + [mount]], targets[1..], mount)
  }

  /** The members of a collection, each once, in the order first found. */
  function Distinct(members: seq<Decl>, found: seq<Decl>): seq<Decl>
    decreases |members|
  {
    if |members| == 0 then found
    else Distinct(members[1..], if members[0] in found then found else found + [members[0]])
  }

  /** The mount a call writes, if it hangs an application anywhere this can follow. */
  function MountOf(call: AppCall): Mount {
    if call.registry.Some? then Mount(call.receiver, call.site, call.mountPath, None)
    else if call.mounted.Some? || call.helper.None? then Mount(call.receiver, call.site, call.mountPath, None)
    else Mount(call.receiver, call.site, call.helper.value.at,
               if call.helper.value.at.None? then Some(call.writtenText) else None)
  }

  /** The declarations a call hangs: every one a binding without a value may hold. */
  function TargetsOf(bound: map<Decl, seq<Decl>>, call: AppCall): seq<Decl> {
    if call.registry.Some? then Distinct(call.registry.value.members, [])
    else if call.mounted.Some? then [call.mounted.value] + Listed(bound, call.mounted.value)
    else if call.helper.Some? then [call.helper.value.declaration] + Listed(bound, call.helper.value.declaration)
    else []
  }

  predicate IsPrefixCall(dialect: Dialect, call: AppCall) {
    Some(call.called) == dialect.prefixMethod
  }

  predicate IsMountCall(dialect: Dialect, call: AppCall) {
    !IsPrefixCall(dialect, call) && Some(call.called) == dialect.mountMethod
  }

  /** What a call of the mount method records, and whether that is all the call was. */
  function MountRecorded(
      dialect: Dialect, bound: map<Decl, seq<Decl>>, c: Collected, call: AppCall): (Collected, bool) {
    if Some(call.called) != dialect.mountMethod then (c, false)
    else if call.registry.Some? && |TargetsOf(bound, call)| == 0 then
      var name := call.registry.value.name;
      var through := call.receiverText + "." + call.called;
      (c.(shifts := true, unread := c.unread[(name, through) := UnreadRegistry(name, through, call.site,
          call.mountPath)]), true)
    else if |TargetsOf(bound, call)| == 0 then
      (c.(shifts := c.shifts || dialect.installMethod != dialect.mountMethod || call.writtenIsApp), false)
    else
      (c.(shifts := true, mounts := Hang(c.mounts, TargetsOf(bound, call), MountOf(call))), true)
  }

  predicate IsScoped(dialect: Dialect, call: AppCall) {
    !dialect.installNamed && dialect.installScoped && |call.arguments| > 0 && call.firstIsPath
  }

  function InstallRecorded(dialect: Dialect, c: Collected, call: AppCall): Collected {
    if Some(call.called) != dialect.installMethod then c
    else
      var scoped := IsScoped(dialect, call);
      var rest := if (dialect.installNamed || scoped) && |call.arguments| > 0 then call.arguments[1..]
        else call.arguments;
      if |rest| == 0 || call.receiver.declared.None? then c
      else
        var d := call.receiver.declared.value;
        var install := Install(call.site, if scoped then call.firstString else None, rest,
                               call.receiverText + "." + call.called);
        c.(installs := c.installs[d := Listed(c.installs, d) + [install]])
  }

  /** What is known after one more call. */
  function Recorded(dialect: Dialect, bound: map<Decl, seq<Decl>>, c: Collected, call: AppCall): Collected {
    if IsPrefixCall(dialect, call) then
      if dialect.prefixMutates && call.receiver.declared.Some? then
        c.(shifts := true, shifted := c.shifted[call.receiver.declared.value := call.firstString])
      else c.(shifts := true)
    else
      var (hung, mounted) := MountRecorded(dialect, bound, c, call);
      if mounted then hung else InstallRecorded(dialect, hung, call)
  }

  function RecordedAll(dialect: Dialect, bound: map<Decl, seq<Decl>>, c: Collected, calls: seq<AppCall>): Collected {
    if |calls| == 0 then c
    else Recorded(dialect, bound, RecordedAll(dialect, bound, c, calls[..|calls| - 1]), calls[|calls| - 1])
  }

  /** How many times a declaration is listed. */
  function Times(targets: seq<Decl>, d: Decl): nat {
    if |targets| == 0 then 0 else (if targets[0] == d then 1 else 0) + Times(targets[1..], d)
  }

  function Repeat(mount: Mount, times: nat): seq<Mount> {
    seq(times, _ => mount)
  }

  /** Every mount a run of calls writes for one declaration, in the order it is met. */
  function MountsWritten(dialect: Dialect, bound: map<Decl, seq<Decl>>, calls: seq<AppCall>, d: Decl): seq<Mount> {
    if |calls| == 0 then []
    else
      var last := calls[|calls| - 1];
      MountsWritten(dialect, bound, calls[..|calls| - 1], d) +
      (if IsMountCall(dialect, last) then Repeat(MountOf(last), Times(TargetsOf(bound, last), d)) else [])
  }

  /**
   * Whatever order files are read in, a declaration's mounts are those the calls
   * write for it, in the order the calls are met, and a declaration is listed
   * exactly when some call hangs it; and while nothing is known to move an
   * application, no mount and no prefix has been recorded.
   */
  lemma {:induction false} MountsRecordedInOrder(
      dialect: Dialect, bound: map<Decl, seq<Decl>>, calls: seq<AppCall>, d: Decl)
    ensures var c := RecordedAll(dialect, bound, NOTHING, calls);
            && Listed(c.mounts, d) == MountsWritten(dialect, bound, calls, d)
            && (d in c.mounts ==> |c.mounts[d]| > 0)
            && (!c.shifts ==> c.mounts == map[] && c.shifted == map[] && c.unread == map[])
  {
    if |calls| > 0 {
      var before := calls[..|calls| - 1];
      MountsRecordedInOrder(dialect, bound, before, d);
      CallRecorded(dialect, bound, RecordedAll(dialect, bound, NOTHING, before), calls[|calls| - 1], d);
      CallShifts(dialect, bound, RecordedAll(dialect, bound, NOTHING, before), calls[|calls| - 1]);
    }
  }

  /** What one call adds to a declaration's mounts, whatever was known before it. */
  lemma {:induction false} CallRecorded(
      dialect: Dialect, bound: map<Decl, seq<Decl>>, c: Collected, call: AppCall, d: Decl)
    ensures var next := Recorded(dialect, bound, c, call);
            && Listed(next.mounts, d) == Listed(c.mounts, d) +
                 (if IsMountCall(dialect, call) then Repeat(MountOf(call), Times(TargetsOf(bound, call), d)) else [])
            && ((d in c.mounts ==> |c.mounts[d]| > 0) ==> (d in next.mounts ==> |next.mounts[d]| > 0))
  {
    HangLists(c.mounts, TargetsOf(bound, call), MountOf(call), d);
    ConcatEmpty(Listed(c.mounts, d), []);
    MountsAfter(dialect, bound, c, call);
  }

  lemma MountsAfter(dialect: Dialect, bound: map<Decl, seq<Decl>>, c: Collected, call: AppCall)
    ensures Recorded(dialect, bound, c, call).mounts
         == if IsMountCall(dialect, call) then Hang(c.mounts, TargetsOf(bound, call), MountOf(call)) else c.mounts
  {
    MountsHung(dialect, bound, c, call);
    InstallKeeps(dialect, MountRecorded(dialect, bound, c, call).0, call);
  }

  lemma MountsHung(dialect: Dialect, bound: map<Decl, seq<Decl>>, c: Collected, call: AppCall)
    ensures MountRecorded(dialect, bound, c, call).0.mounts
         == if Some(call.called) == dialect.mountMethod then Hang(c.mounts, TargetsOf(bound, call), MountOf(call))
           else c.mounts
  {
  }

  lemma CallShifts(dialect: Dialect, bound: map<Decl, seq<Decl>>, c: Collected, call: AppCall)
    ensures var next := Recorded(dialect, bound, c, call);
            !next.shifts ==> KeepsPlaces(c, next)
  {
    MountShifts(dialect, bound, c, call);
    InstallKeeps(dialect, MountRecorded(dialect, bound, c, call).0, call);
  }

  /** Nothing before had moved a route, and nothing but the installs may have changed. */
  predicate KeepsPlaces(c: Collected, next: Collected) {
    !c.shifts && next.mounts == c.mounts && next.shifted == c.shifted && next.unread == c.unread
  }

  lemma MountShifts(dialect: Dialect, bound: map<Decl, seq<Decl>>, c: Collected, call: AppCall)
    ensures var next := MountRecorded(dialect, bound, c, call).0;
            !next.shifts ==> KeepsPlaces(c, next)
  {
  }

  lemma InstallKeeps(dialect: Dialect, c: Collected, call: AppCall)
    ensures InstallRecorded(dialect, c, call) == c.(installs := InstallRecorded(dialect, c, call).installs)
  {
  }

  lemma {:induction false} HangLists(mounts: map<Decl, seq<Mount>>, targets: seq<Decl>, mount: Mount, d: Decl)
    ensures Listed(Hang(mounts, targets, mount), d) == Listed(mounts, d) + Repeat(mount, Times(targets, d))
    ensures (d in mounts ==> |mounts[d]| > 0)
            ==> (d in Hang(mounts, targets, mount) ==> |Hang(mounts, targets, mount)[d]| > 0)
    decreases |targets|
  {
    if |targets| == 0 {
      assert Repeat(mount, 0) == [];
      ConcatEmpty(Listed(mounts, d), []);
    } else {
      var first := mounts[targets[0] := Listed(mounts, targets[0]) + [mount]];
      HangLists(first, targets[1..], mount, d);
      if targets[0] == d {
        assert [mount] + Repeat(mount, Times(targets[1..], d)) == Repeat(mount, Times(targets, d));
        Associates(Listed(mounts, d), [mount], Repeat(mount, Times(targets[1..], d)));
      }
    }
  }

  // ---- installs ----

  /** The call hangs an application, or a collection it should have found one in: that is all it is. */
  predicate TakenAsMount(dialect: Dialect, bound: map<Decl, seq<Decl>>, call: AppCall) {
    Some(call.called) == dialect.mountMethod && (call.registry.Some? || |TargetsOf(bound, call)| > 0)
  }

  /** What an install call names beside its scope, or the name it installs under. */
  function MiddlewareOf(dialect: Dialect, call: AppCall): seq<string> {
    if |call.arguments| > 0 && (dialect.installNamed || (dialect.installScoped && call.firstIsPath))
    then call.arguments[1..]
    else call.arguments
  }

  /** The call installs middleware on a declaration. */
  predicate InstallsOn(dialect: Dialect, bound: map<Decl, seq<Decl>>, call: AppCall, d: Decl) {
    && !IsPrefixCall(dialect, call)
    && !TakenAsMount(dialect, bound, call)
    && Some(call.called) == dialect.installMethod
    && call.receiver.declared == Some(d)
    && |MiddlewareOf(dialect, call)| > 0
  }

  function InstallOf(dialect: Dialect, call: AppCall): Install {
    Install(
      call.site,
      if IsScoped(dialect, call) then call.firstString else None,
      MiddlewareOf(dialect, call),
      call.receiverText + "." + call.called)
  }

  /** Every install a run of calls writes on one declaration, in the order it is met. */
  function InstallsWritten(dialect: Dialect, bound: map<Decl, seq<Decl>>, calls: seq<AppCall>, d: Decl): seq<Install> {
    if |calls| == 0 then []
    else
      var last := calls[|calls| - 1];
      InstallsWritten(dialect, bound, calls[..|calls| - 1], d) +
      (if InstallsOn(dialect, bound, last, d) then [InstallOf(dialect, last)] else [])
  }

  /**
   * A declaration's installs are those the install calls write on it, in the order
   * the calls are met; none comes of a call taken as a mount or of a prefix.
   */
  lemma {:induction false} InstallsRecordedInOrder(
      dialect: Dialect, bound: map<Decl, seq<Decl>>, calls: seq<AppCall>, d: Decl)
    ensures Listed(RecordedAll(dialect, bound, NOTHING, calls).installs, d) == InstallsWritten(dialect, bound, calls, d)
    ensures d in RecordedAll(dialect, bound, NOTHING, calls).installs
       <==> |InstallsWritten(dialect, bound, calls, d)| > 0
  {
    if |calls| > 0 {
      var before := calls[..|calls| - 1];
      InstallsRecordedInOrder(dialect, bound, before, d);
      CallInstalls(dialect, bound, RecordedAll(dialect, bound, NOTHING, before), calls[|calls| - 1], d);
    }
  }

  /** What one call adds to a declaration's installs. */
  lemma CallInstalls(dialect: Dialect, bound: map<Decl, seq<Decl>>, c: Collected, call: AppCall, d: Decl)
    ensures Recorded(dialect, bound, c, call).installs
         == if InstallsOn(dialect, bound, call, call.receiver.declared.GetOr(d)) && call.receiver.declared.Some?
            then c.installs[call.receiver.declared.value := Listed(c.installs, call.receiver.declared.value)
                + [InstallOf(dialect, call)]]
            else c.installs
  {
    if !IsPrefixCall(dialect, call) && !TakenAsMount(dialect, bound, call) {
      assert MountRecorded(dialect, bound, c, call).0.installs == c.installs;
      assert !MountRecorded(dialect, bound, c, call).1;
    }
  }

  /** An install is listed exactly when some call writes it. */
  lemma {:induction false} InstallsWrittenExactly(
      dialect: Dialect, bound: map<Decl, seq<Decl>>, calls: seq<AppCall>, d: Decl, install: Install)
    ensures install in InstallsWritten(dialect, bound, calls, d)
       <==> exists i | 0 <= i < |calls| ::
           InstallsOn(dialect, bound, calls[i], d) && InstallOf(dialect, calls[i]) == install
  {
    if |calls| > 0 {
      InstallsWrittenExactly(dialect, bound, calls[..|calls| - 1], d, install);
      assert forall i | 0 <= i < |calls| - 1 :: calls[i] == calls[..|calls| - 1][i];
    }
  }

  // ---- prefixes ----

  /** The call moves every route of a declaration. */
  predicate Shifts(dialect: Dialect, call: AppCall, d: Decl) {
    IsPrefixCall(dialect, call) && dialect.prefixMutates && call.receiver.declared == Some(d)
  }

  /** The last call to move a declaration. */
  predicate LastShift(dialect: Dialect, calls: seq<AppCall>, i: nat, d: Decl)
    requires i < |calls|
  {
    Shifts(dialect, calls[i], d) && forall j | i < j < |calls| :: !Shifts(dialect, calls[j], d)
  }

  /** Where a run of calls moves a declaration to, if anywhere. */
  function MovedTo(dialect: Dialect, calls: seq<AppCall>, d: Decl): Option<Option<string>> {
    if |calls| == 0 then None
    else if Shifts(dialect, calls[|calls| - 1], d) then Some(calls[|calls| - 1].firstString)
    else MovedTo(dialect, calls[..|calls| - 1], d)
  }

  lemma {:induction false} MovedRecorded(dialect: Dialect, bound: map<Decl, seq<Decl>>, calls: seq<AppCall>, d: Decl)
    ensures d in RecordedAll(dialect, bound, NOTHING, calls).shifted <==> MovedTo(dialect, calls, d).Some?
    ensures MovedTo(dialect, calls, d).Some?
            ==> RecordedAll(dialect, bound, NOTHING, calls).shifted[d] == MovedTo(dialect, calls, d).value
  {
    if |calls| > 0 {
      var before := calls[..|calls| - 1];
      MovedRecorded(dialect, bound, before, d);
      CallMoves(dialect, bound, RecordedAll(dialect, bound, NOTHING, before), calls[|calls| - 1]);
    }
  }

  lemma {:induction false} MovedByLast(dialect: Dialect, calls: seq<AppCall>, d: Decl)
    ensures MovedTo(dialect, calls, d).Some? <==> exists i | 0 <= i < |calls| :: Shifts(dialect, calls[i], d)
    ensures forall i | 0 <= i < |calls| && LastShift(dialect, calls, i, d) ::
            MovedTo(dialect, calls, d) == Some(calls[i].firstString)
  {
    if |calls| > 0 {
      var before, last := calls[..|calls| - 1], calls[|calls| - 1];
      MovedByLast(dialect, before, d);
      assert forall i | 0 <= i < |before| :: calls[i] == before[i];
      forall i | 0 <= i < |before| && LastShift(dialect, calls, i, d)
        ensures LastShift(dialect, before, i, d) && !Shifts(dialect, last, d) {
        assert !Shifts(dialect, calls[|calls| - 1], d);
      }
    }
  }

  /** A declaration is moved exactly when some prefix call on it says so, and the last of them wins. */
  lemma LastPrefixWins(dialect: Dialect, bound: map<Decl, seq<Decl>>, calls: seq<AppCall>, d: Decl)
    ensures d in RecordedAll(dialect, bound, NOTHING, calls).shifted
       <==> exists i | 0 <= i < |calls| :: Shifts(dialect, calls[i], d)
    ensures forall i | 0 <= i < |calls| && LastShift(dialect, calls, i, d) ::
              d in RecordedAll(dialect, bound, NOTHING, calls).shifted
              && RecordedAll(dialect, bound, NOTHING, calls).shifted[d] == calls[i].firstString
  {
    MovedRecorded(dialect, bound, calls, d);
    MovedByLast(dialect, calls, d);
  }

  lemma CallMoves(dialect: Dialect, bound: map<Decl, seq<Decl>>, c: Collected, call: AppCall)
    ensures Recorded(dialect, bound, c, call).shifted
         == if IsPrefixCall(dialect, call) && dialect.prefixMutates && call.receiver.declared.Some?
            then c.shifted[call.receiver.declared.value := call.firstString] else c.shifted
  {
    InstallKeeps(dialect, MountRecorded(dialect, bound, c, call).0, call);
    MountMovesNone(dialect, bound, c, call);
  }

  lemma MountMovesNone(dialect: Dialect, bound: map<Decl, seq<Decl>>, c: Collected, call: AppCall)
    ensures MountRecorded(dialect, bound, c, call).0.shifted == c.shifted
  {
  }
}
