/** What leaves a file's address alone, and what an address is made of. */
module FsRouteLaws {
  import opened Wrappers
  import opened Text
  import opened FsSegments
  import opened FsRoutes

  /** Parts with more of them at some place. */
  function Inserted(parts: seq<string>, i: nat, more: seq<string>): seq<string>
    requires i <= |parts|
  {
    parts[..i] + more + parts[i..]
  }

  // ---- climbing out ----

  /** A path climbs out of the service exactly when its first part does. */
  lemma ClimbsByParts(file: string)
    ensures ClimbsOut(file) <==> |Split(file, '/')| > 1 && Split(file, '/')[0] == ".."
  {
    var parts := Split(file, '/');
    JoinSplit(file, '/');
    if |parts| > 1 && parts[0] == ".." {
      assert file == ".." + ['/'] + Join(parts[1..], '/');
    }
    if ClimbsOut(file) {
      assert file == ".." + (['/'] + file[3..]);
      SplitAfter("..", file[3..], '/');
    }
  }

  // ---- a group or slot after the root ----

  /** A segment that adds nothing may stand anywhere among the others. */
  lemma {:induction false} KeptWithout(segments: seq<string>, i: nat, more: string, honoured: seq<Convention>)
    requires i <= |segments| && SegmentOf(more, honoured, 0).None?
    ensures Kept(Inserted(segments, i, [more]), honoured) == Kept(segments, honoured)
  {
    var inserted := Inserted(segments, i, [more]);
    if i == 0 {
      assert inserted[1..] == segments;
    } else {
      assert inserted[0] == segments[0] && inserted[1..] == Inserted(segments[1..], i - 1, [more]);
      KeptWithout(segments[1..], i - 1, more, honoured);
    }
  }

  lemma OptsOutWithout(segments: seq<string>, i: nat, more: string, router: Router)
    requires i <= |segments| && !Starts(more, '_')
    ensures AnyOptsOut(Inserted(segments, i, [more]), router) <==> AnyOptsOut(segments, router)
  {
    var inserted := Inserted(segments, i, [more]);
    if AnyOptsOut(segments, router) {
      var k :| 0 <= k < |segments| && OptsOut(segments[k], router);
      assert inserted[if k < i then k else k + 1] == segments[k];
    }
    if AnyOptsOut(inserted, router) {
      var k :| 0 <= k < |inserted| && OptsOut(inserted[k], router);
      assert inserted[k] == if k < i then segments[k] else if k == i then more else segments[k - 1];
    }
  }

  /** In front of the file name, a group or slot changes nothing of how a route is laid out and read. */
  lemma NamedWithout(
      normalize: Normalize, router: Router, after: seq<string>, name: string, i: nat, more: string, application: string)
    requires !router.flat && i <= |after|
    requires AddsNothing(more, router)
    ensures ReadNamed(normalize, router, Inserted(after, i, [more]), name, application)
         == ReadNamed(normalize, router, after, name, application)
  {
    GroupOrSlotAddsNothing(more, router.segments);
    var all := if router.routeFiles.None? && name != "index" then after + [name] else after;
    assert router.routeFiles.None? && name != "index"
      ==> Inserted(after, i, [more]) + [name] == Inserted(all, i, [more]);
    OptsOutWithout(all, i, more, router);
    KeptWithout(all, i, more, router.segments);
  }

  /** A directory the router honours as a group or as a slot. */
  predicate AddsNothing(segment: string, router: Router) {
    (IsGroup(segment) && Group in router.segments) || (Starts(segment, '@') && Slot in router.segments)
  }

  lemma BelowWithout(
      normalize: Normalize, router: Router, below: seq<string>, i: nat, more: string, application: string)
    requires !router.flat && i < |below|
    requires AddsNothing(more, router)
    ensures ReadBelow(normalize, router, Inserted(below, i, [more]), application)
         == ReadBelow(normalize, router, below, application)
  {
    var last := |below| - 1;
    var after, name := below[..last], WithoutExtension(below[last]);
    var inserted := Inserted(below, i, [more]);
    assert inserted[|inserted| - 1] == below[last] && inserted[..|inserted| - 1] == Inserted(after, i, [more]);
    BelowNamed(normalize, router, below, after, name, application);
    BelowNamed(normalize, router, inserted, Inserted(after, i, [more]), name, application);
    NamedWithout(normalize, router, after, name, i, more, application);
  }

  lemma BelowNamed(
      normalize: Normalize, router: Router, below: seq<string>, after: seq<string>, name: string, application: string)
    requires |below| > 0 && below[..|below| - 1] == after && WithoutExtension(below[|below| - 1]) == name
    ensures ReadBelow(normalize, router, below, application) == ReadNamed(normalize, router, after, name, application)
  {
  }

  /** What comes after the first match of the root does not move it. */
  lemma RootStays(parts: seq<string>, root: seq<string>, at: nat, i: nat, more: seq<string>)
    requires FirstRootAt(parts, root, at) && at + |root| <= i <= |parts|
    ensures FirstRootAt(Inserted(parts, i, more), root, at)
  {
    var inserted := Inserted(parts, i, more);
    assert forall m | 0 <= m < i :: inserted[m] == parts[m];
    forall j | 0 <= j < at ensures !RootAt(inserted, root, j) {
      assert !RootAt(parts, root, j);
      var k :| 0 <= k < |root| && parts[j + k] != root[k];
      assert inserted[j + k] != root[k];
    }
  }

  lemma InsertedFurther(parts: seq<string>, i: nat, more: string, from: nat)
    requires from <= i <= |parts|
    ensures Inserted(parts, i, [more])[from..] == Inserted(parts[from..], i - from, [more])
  {
  }

  /** Whatever reading ignores below the root, it ignores in a path that has the root. */
  lemma PartsWithout(read: Reader, parts: seq<string>, root: seq<string>, at: nat, i: nat, more: string)
    requires FirstRootAt(parts, root, at) && at + |root| <= i < |parts|
    requires forall before, below: seq<string>, k: nat | k < |below| ::
             read(before, Inserted(below, k, [more])) == read(before, below)
    ensures ReadAtRoot(read, Inserted(parts, i, [more]), root) == ReadAtRoot(read, parts, root)
  {
    var inserted := Inserted(parts, i, [more]);
    RootStays(parts, root, at, i, [more]);
    ReadAtFirst(read, parts, root, at);
    ReadAtFirst(read, inserted, root, at);
    InsertedFurther(parts, i, more, at + |root|);
    assert inserted[..at] == parts[..at];
  }

  lemma ReaderIgnores(normalize: Normalize, router: Router, more: string)
    requires !router.flat && AddsNothing(more, router)
    ensures forall before, below: seq<string>, k: nat | k < |below| ::
              ReaderOf(normalize, router)(before, Inserted(below, k, [more]))
              == ReaderOf(normalize, router)(before, below)
  {
    forall before, below: seq<string>, k: nat | k < |below|
      ensures ReaderOf(normalize, router)(before, Inserted(below, k, [more]))
           == ReaderOf(normalize, router)(before, below)
    {
      BelowWithout(normalize, router, below, k, more, ApplicationOf(before));
    }
  }

  /**
   * A directory the router honours as a group or a slot, put anywhere between
   * the root and the file, leaves the reading of the file what it was.
   */
  lemma GroupAfterRootAddsNothing(
      normalize: Normalize, router: Router, file: string, file': string, at: nat, i: nat, more: string)
    requires !router.flat && AddsNothing(more, router)
    requires FirstRootAt(Split(file, '/'), Split(router.root, '/'), at)
    requires at + |Split(router.root, '/')| <= i < |Split(file, '/')|
    requires Split(file', '/') == Inserted(Split(file, '/'), i, [more])
    ensures Reading(normalize, file', router) == Reading(normalize, file, router)
  {
    ClimbsByParts(file);
    ClimbsByParts(file');
    assert Split(file', '/')[0] == Split(file, '/')[0];
    ReaderIgnores(normalize, router, more);
    PartsWithout(ReaderOf(normalize, router), Split(file, '/'), Split(router.root, '/'), at, i, more);
  }

  // ---- private directories ----

  /**
   * Of a router that lays out one directory a segment, a file it would serve is
   * out of service exactly when something below the root starts with an
   * underscore it honours, the file's own name among it where that is a segment.
   */
  lemma PrivateIsNotServed(normalize: Normalize, router: Router, after: seq<string>, name: string, application: string)
    requires !router.flat && |name| > 0
    requires router.routeFiles.None? || name in router.routeFiles.value
    ensures ReadNamed(normalize, router, after, name, application).NotServed?
       <==> Private in router.segments
            && ((exists i | 0 <= i < |after| :: Starts(after[i], '_'))
               || (router.routeFiles.None? && Starts(name, '_')))
    ensures !ReadNamed(normalize, router, after, name, application).Elsewhere?
  {
    var all := if router.routeFiles.None? && name != "index" then after + [name] else after;
    assert "index"[0] != '_';
    if i :| 0 <= i < |after| && Starts(after[i], '_') {
      assert all[i] == after[i];
      assert Private in router.segments ==> OptsOut(all[i], router);
    }
    if AnyOptsOut(all, router) {
      var i :| 0 <= i < |all| && OptsOut(all[i], router);
      assert i < |after| ==> all[i] == after[i];
    }
  }

  // ---- directories before the root ----

  /** A route of one application at an address, whichever the application. */
  predicate SameAddress(a: FileReading, b: FileReading) {
    match a
    case Route(path, rawPath, _) => b.Route? && b.path == path && b.rawPath == rawPath
    case _ => a == b
  }

  /** Directories none of which is a part of the root bring no earlier match of it. */
  lemma RootShifts(parts: seq<string>, root: seq<string>, at: nat, i: nat, more: seq<string>)
    requires |root| > 0 && FirstRootAt(parts, root, at) && i <= at
    requires forall k | 0 <= k < |more| :: more[k] !in root
    ensures FirstRootAt(Inserted(parts, i, more), root, at + |more|)
  {
    var inserted := Inserted(parts, i, more);
    assert inserted[at + |more|..] == parts[at..];
    forall k | 0 <= k < |root| ensures inserted[at + |more| + k] == root[k] {
      assert inserted[at + |more|..][k] == parts[at..][k];
    }
    forall j | 0 <= j < at + |more| ensures !RootAt(inserted, root, j) {
      if RootAt(inserted, root, j) {
        NoRootAcross(parts, root, at, i, more, j);
      }
    }
  }

  lemma NoRootAcross(parts: seq<string>, root: seq<string>, at: nat, i: nat, more: seq<string>, j: nat)
    requires |root| > 0 && FirstRootAt(parts, root, at) && i <= at && j < at + |more|
    requires forall k | 0 <= k < |more| :: more[k] !in root
    ensures !RootAt(Inserted(parts, i, more), root, j)
  {
    var inserted := Inserted(parts, i, more);
    if j + |root| <= i {
      assert !RootAt(parts, root, j);
      var k :| 0 <= k < |root| && parts[j + k] != root[k];
      assert inserted[j + k] == parts[j + k];
    } else if i + |more| <= j {
      assert !RootAt(parts, root, j - |more|);
      if j + |root| <= |inserted| {
        var k :| 0 <= k < |root| && parts[j - |more| + k] != root[k];
        assert inserted[j + k] == parts[j - |more| + k];
      }
    } else if |more| > 0 && j + |root| <= |inserted| {
      var k := if j < i then i - j else 0;
      assert inserted[j + k] == more[j + k - i];
      assert root[k] in root;
    } else if |more| == 0 {
      assert inserted == parts;
    }
  }

  lemma BelowSameAddress(normalize: Normalize, router: Router, below: seq<string>, a: string, b: string)
    ensures SameAddress(ReadBelow(normalize, router, below, a), ReadBelow(normalize, router, below, b))
  {
  }

  /** A reader tells what stands before the root only in naming the application. */
  lemma PartsShifted(read: Reader, parts: seq<string>, root: seq<string>, at: nat, i: nat, more: seq<string>)
    requires FirstRootAt(parts, root, at) && i <= at
    requires FirstRootAt(Inserted(parts, i, more), root, at + |more|)
    requires forall a, b, below :: SameAddress(read(a, below), read(b, below))
    ensures SameAddress(ReadAtRoot(read, parts, root), ReadAtRoot(read, Inserted(parts, i, more), root))
  {
    var inserted := Inserted(parts, i, more);
    ReadAtFirst(read, parts, root, at);
    ReadAtFirst(read, inserted, root, at + |more|);
    assert inserted[at + |more| + |root|..] == parts[at + |root|..];
  }

  /**
   * Directories in front of the root's first match leave the address what it was,
   * where no earlier match comes of them.
   */
  lemma DirectoriesBeforeRootKeepAddress(
      normalize: Normalize, router: Router, file: string, file': string, at: nat, i: nat, more: seq<string>)
    requires FirstRootAt(Split(file, '/'), Split(router.root, '/'), at) && i <= at
    requires Split(file', '/') == Inserted(Split(file, '/'), i, more)
    requires !ClimbsOut(file) && !ClimbsOut(file')
    requires FirstRootAt(Split(file', '/'), Split(router.root, '/'), at + |more|)
    ensures SameAddress(Reading(normalize, file, router), Reading(normalize, file', router))
  {
    var read := ReaderOf(normalize, router);
    forall a, b, below ensures SameAddress(read(a, below), read(b, below)) {
      BelowSameAddress(normalize, router, below, ApplicationOf(a), ApplicationOf(b));
    }
    PartsShifted(read, Split(file, '/'), Split(router.root, '/'), at, i, more);
  }

  /** And no earlier match comes of directories that are no part of the root. */
  lemma ForeignDirectoriesKeepAddress(
      normalize: Normalize, router: Router, file: string, file': string, at: nat, i: nat, more: seq<string>)
    requires FirstRootAt(Split(file, '/'), Split(router.root, '/'), at) && i <= at
    requires Split(file', '/') == Inserted(Split(file, '/'), i, more)
    requires !ClimbsOut(file) && !ClimbsOut(file')
    requires forall k | 0 <= k < |more| :: more[k] !in Split(router.root, '/')
    ensures SameAddress(Reading(normalize, file, router), Reading(normalize, file', router))
  {
    RootShifts(Split(file, '/'), Split(router.root, '/'), at, i, more);
    DirectoriesBeforeRootKeepAddress(normalize, router, file, file', at, i, more);
  }

  // ---- applications ----

  /** A file under `src` is of the application beside it, unless that is itself called `src`. */
  lemma SourceIsNoApplication(before: seq<string>)
    requires forall k | 0 <= k < |before| :: '/' !in before[k] && before[k] != "" && before[k] != ROOT_APPLICATION
    ensures ApplicationOf(before + [SOURCE_DIRECTORY]) == ApplicationOf(before)
       <==> |before| == 0 || before[|before| - 1] != SOURCE_DIRECTORY
  {
    var more := before + [SOURCE_DIRECTORY];
    assert more[..|more| - 1] == before;
    if |before| > 0 && before[|before| - 1] == SOURCE_DIRECTORY {
      var kept := before[..|before| - 1];
      SplitJoin(before, '/');
      if |kept| == 0 {
        assert before == [SOURCE_DIRECTORY];
      } else {
        SplitJoin(kept, '/');
      }
    }
  }

  // ---- what the address is made of ----

  /**
   * No segment of a kept reading holds a slash, so the path as written has one
   * segment for each that says something.
   */
  lemma {:induction false} KeptAreWhole(segments: seq<string>, honoured: seq<Convention>)
    requires forall i | 0 <= i < |segments| :: '/' !in segments[i]
    ensures forall i | 0 <= i < |Kept(segments, honoured)| ::
              '/' !in Kept(segments, honoured)[i].read && '/' !in Kept(segments, honoured)[i].raw
  {
    if |segments| > 0 {
      KeptAreWhole(segments[1..], honoured);
      if SegmentOf(segments[0], honoured, 0).Some? {
        ReadingIsWhole(segments[0], honoured, 0);
      }
    }
  }

  /** The path as written reads back as the router's prefix and what each segment contributes. */
  lemma RawPathReadsBack(prefix: string, segments: seq<string>, honoured: seq<Convention>)
    requires forall i | 0 <= i < |segments| :: '/' !in segments[i]
    ensures Segments(RawPathOf(prefix, Kept(segments, honoured)))
         == Segments(prefix) + NonEmpty(RawsOf(Kept(segments, honoured)))
  {
    var kept := Kept(segments, honoured);
    var raws := RawsOf(kept);
    KeptAreWhole(segments, honoured);
    NonEmptyConcat(Split(prefix, '/'), raws);
    SegmentsAre(prefix);
    NonEmptyKeeps(raws);
    var all := Segments(prefix) + NonEmpty(raws);
    forall i | 0 <= i < |all| ensures all[i] != "" && '/' !in all[i] {
      if i >= |Segments(prefix)| {
        var k :| 0 <= k < |raws| && raws[k] == all[i];
        assert raws[k] == kept[k].raw;
      }
    }
    SegmentsRooted(all);
  }
}
