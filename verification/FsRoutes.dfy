/**
 * What a file is to a file-system router (`dottedSegments` and `segmentOf` put
 * to use: `directorySegments`, `flatSegments`, `applicationOf`, `readFsFile` and
 * `fsApplicationMap` in `fs-routes.ts`).
 */
module FsRoutes {
  import opened Wrappers
  import opened Seqs
  import opened Text
  import opened FsSegments
  import opened FlatNames

  datatype Router = Router(
    root: string,
    routeFiles: Option<seq<string>>,
    prefix: Option<string>,
    segments: seq<Convention>,
    flat: bool)

  datatype FileReading =
    | Route(path: string, rawPath: string, application: string)
    | NotServed
    | Elsewhere

  /** The segments of a file's address, before they are read; or none, and why. */
  datatype Laid = LaidAs(segments: seq<string>) | OutOfService | NoRoute

  const SOURCE_DIRECTORY := "src"
  const ROOT_APPLICATION := "."

  /** How an address is spelled once it is put together. */
  type Normalize = string -> string

  // ---- names ----

  function Dropped(text: string, ends: bool): string
    requires ends ==> |text| > 0
  {
    if ends then text[..|text| - 1] else text
  }

  /**
   * A file name without its extension: `.ts` or `.js`, with a `c` or an `m`
   * before it and an `x` after it where written.
   */
  function WithoutExtension(name: string): string {
    var script := Dropped(name, Ends(name, 'x'));
    if !Ends(script, 's') then name
    else
      var language := Dropped(script, true);
      if !Ends(language, 'j') && !Ends(language, 't') then name
      else
        var kind := Dropped(language, true);
        var dot := Dropped(kind, Ends(kind, 'c') || Ends(kind, 'm'));
        if Ends(dot, '.') then Dropped(dot, true) else name
  }

  // ---- where the router's root is ----

  predicate RootAt(parts: seq<string>, root: seq<string>, index: nat) {
    index + |root| <= |parts| && forall k | 0 <= k < |root| :: parts[index + k] == root[k]
  }

  predicate FirstRootAt(parts: seq<string>, root: seq<string>, index: nat) {
    RootAt(parts, root, index) && forall j | 0 <= j < index :: !RootAt(parts, root, j)
  }

  /** The first place the root is matched. */
  ghost function FirstRoot(parts: seq<string>, root: seq<string>): (at: Option<nat>)
    ensures at.Some? ==> FirstRootAt(parts, root, at.value)
  {
    if exists at: nat :: FirstRootAt(parts, root, at) then
      var at: nat :| FirstRootAt(parts, root, at);
      Some(at)
    else None
  }

  /** Which application a file belongs to, from the directories in front of the root. */
  function ApplicationOf(before: seq<string>): string {
    var kept := if |before| > 0 && before[|before| - 1] == SOURCE_DIRECTORY then before[..|before| - 1] else before;
    if |kept| == 0 then ROOT_APPLICATION else Join(kept, '/')
  }

  // ---- how a route is laid out ----

  /** A segment under which nothing is served, where the router honours private directories. */
  predicate OptsOut(segment: string, router: Router) {
    Private in router.segments && Starts(segment, '_')
  }

  predicate AnyOptsOut(segments: seq<string>, router: Router) {
    exists i | 0 <= i < |segments| :: OptsOut(segments[i], router)
  }

  function DirectorySegments(after: seq<string>, name: string, router: Router): Laid {
    if router.routeFiles.Some? && name !in router.routeFiles.value then NoRoute
    else if router.routeFiles.None? && OptsOut(name, router) then OutOfService
    else
      var all := if router.routeFiles.None? && name != "index" then after + [name] else after;
      if AnyOptsOut(all, router) then OutOfService else LaidAs(all)
  }

  function FlatSegments(after: seq<string>, name: string, router: Router): Laid {
    if |after| == 0 then LaidAs(DottedSegments(name))
    else if |after| == 1 && router.routeFiles.Some? && name in router.routeFiles.value
    then LaidAs(DottedSegments(after[0]))
    else NoRoute
  }

  function LaidOut(after: seq<string>, name: string, router: Router): Laid {
    if router.flat then FlatSegments(after, name, router) else DirectorySegments(after, name, router)
  }

  // ---- the address ----

  /** What the segments contribute, those that contribute nothing dropped. */
  function Kept(segments: seq<string>, honoured: seq<Convention>): seq<SegmentReading> {
    if |segments| == 0 then []
    else
      var read := SegmentOf(segments[0], honoured, 0);
      (if read.None? then [] else [read.value]) + Kept(segments[1..], honoured)
  }

  function ReadsOf(kept: seq<SegmentReading>): seq<string> {
    seq(|kept|, i requires 0 <= i < |kept| => kept[i].read)
  }

  function RawsOf(kept: seq<SegmentReading>): seq<string> {
    seq(|kept|, i requires 0 <= i < |kept| => kept[i].raw)
  }

  function PathOf(normalize: Normalize, prefix: string, kept: seq<SegmentReading>): string {
    normalize(prefix + "/" + Join(ReadsOf(kept), '/'))
  }

  function RawPathOf(prefix: string, kept: seq<SegmentReading>): string {
    "/" + Join(NonEmpty(Split(prefix, '/') + RawsOf(kept)), '/')
  }

  /** What a file laid out so is. */
  function Answer(normalize: Normalize, router: Router, laid: Laid, application: string): FileReading {
    match laid
    case NoRoute => Elsewhere
    case OutOfService => NotServed
    case LaidAs(segments) =>
      var kept := Kept(segments, router.segments);
      Route(PathOf(normalize, router.prefix.GetOr(""), kept), RawPathOf(router.prefix.GetOr(""), kept), application)
  }

  /** What a file of some name is, in the directories after the root. */
  function ReadNamed(
      normalize: Normalize, router: Router, after: seq<string>, name: string, application: string): FileReading {
    if |name| == 0 then Elsewhere else Answer(normalize, router, LaidOut(after, name, router), application)
  }

  /** What the parts of a path after the root read as, in the application in front of it. */
  function ReadBelow(normalize: Normalize, router: Router, below: seq<string>, application: string): FileReading {
    if |below| == 0 then Elsewhere
    else ReadNamed(normalize, router, below[..|below| - 1], WithoutExtension(below[|below| - 1]), application)
  }

  /** A reader of what stands before the root and below it. */
  type Reader = (seq<string>, seq<string>) -> FileReading

  function ReaderOf(normalize: Normalize, router: Router): Reader {
    (before: seq<string>, below: seq<string>) => ReadBelow(normalize, router, below, ApplicationOf(before))
  }

  /** A path read at the first match of the root, where there is one. */
  ghost function ReadAtRoot(read: Reader, parts: seq<string>, root: seq<string>): FileReading {
    var at := FirstRoot(parts, root);
    if at.None? then Elsewhere else read(parts[..at.value], parts[at.value + |root|..])
  }

  predicate ClimbsOut(file: string) {
    "../" <= file
  }

  ghost function Reading(normalize: Normalize, file: string, router: Router): FileReading {
    if ClimbsOut(file) then Elsewhere
    else ReadAtRoot(ReaderOf(normalize, router), Split(file, '/'), Split(router.root, '/'))
  }

  // ---- the readers, as they run ----

  method LayDirectories(after: seq<string>, name: string, router: Router) returns (laid: Laid)
    ensures laid == DirectorySegments(after, name, router)
  {
    var all := after;
    if router.routeFiles.Some? {
      if name !in router.routeFiles.value {
        return NoRoute;
      }
    } else {
      if OptsOut(name, router) {
        return OutOfService;
      }
      if name != "index" {
        all := all + [name];
      }
    }
    if AnyOptsOut(all, router) {
      return OutOfService;
    }
    return LaidAs(all);
  }

  method FindRoot(parts: seq<string>, root: seq<string>) returns (at: Option<nat>)
    ensures at == FirstRoot(parts, root)
  {
    at := None;
    var index := 0;
    while index + |root| <= |parts| && at.None?
      invariant at.None? ==> forall j | 0 <= j < index :: !RootAt(parts, root, j)
      invariant at.Some? ==> FirstRootAt(parts, root, at.value)
      decreases |parts| - index, at.None?
    {
      if RootAt(parts, root, index) {
        at := Some(index);
      }
      index := index + 1;
    }
    if at.Some? {
      FirstRootUnique(parts, root, at.value);
    }
  }

  /** A root is first in one place only. */
  lemma FirstRootUnique(parts: seq<string>, root: seq<string>, index: nat)
    requires FirstRootAt(parts, root, index)
    ensures FirstRoot(parts, root) == Some(index)
  {
    var at := FirstRoot(parts, root).value;
    assert RootAt(parts, root, at) && RootAt(parts, root, index);
  }

  lemma ReadAtFirst(read: Reader, parts: seq<string>, root: seq<string>, at: nat)
    requires FirstRootAt(parts, root, at)
    ensures ReadAtRoot(read, parts, root) == read(parts[..at], parts[at + |root|..])
  {
    FirstRootUnique(parts, root, at);
  }

  method ReadFsFile(normalize: Normalize, file: string, router: Router) returns (reading: FileReading)
    ensures reading == Reading(normalize, file, router)
  {
    if ClimbsOut(file) {
      return Elsewhere;
    }
    var found, before, below := SplitAtRoot(Split(file, '/'), Split(router.root, '/'));
    if !found {
      return Elsewhere;
    }
    reading := ReadFileBelow(normalize, router, below, ApplicationOf(before));
  }

  /** What stands before the root and below it, whichever way it is read. */
  method SplitAtRoot(
      parts: seq<string>, root: seq<string>)
      returns (found: bool, before: seq<string>, below: seq<string>)
    ensures forall read: Reader :: ReadAtRoot(read, parts, root) == if found then read(before, below) else Elsewhere
  {
    var at := FindRoot(parts, root);
    if at.None? {
      return false, [], [];
    }
    forall read: Reader ensures ReadAtRoot(read, parts, root) == read(parts[..at.value], parts[at.value + |root|..]) {
      ReadAtFirst(read, parts, root, at.value);
    }
    return true, parts[..at.value], parts[at.value + |root|..];
  }

  method ReadFileBelow(
      normalize: Normalize, router: Router, below: seq<string>, application: string)
      returns (reading: FileReading)
    ensures reading == ReadBelow(normalize, router, below, application)
  {
    var after := below;
    if |after| == 0 {
      return Elsewhere;
    }
    var name := WithoutExtension(after[|after| - 1]);
    after := after[..|after| - 1];
    if |name| == 0 {
      return Elsewhere;
    }
    var laid;
    if router.flat {
      laid := FlatSegments(after, name, router);
    } else {
      laid := LayDirectories(after, name, router);
    }
    return Answer(normalize, router, laid, application);
  }

  /** The applications a service's routers hold: every one some file is served in, and no other. */
  method FsApplicationMap(normalize: Normalize, files: seq<string>, routers: seq<Router>) returns (names: set<string>)
    ensures forall name :: name in names <==> ServedIn(normalize, files, routers, name)
  {
    names := {};
    for f := 0 to |files|
      invariant forall name :: name in names <==> ServedIn(normalize, files[..f], routers, name)
    {
      for r := 0 to |routers|
        invariant forall name :: name in names <==>
          ServedIn(normalize, files[..f], routers, name) || ServedIn(normalize, [files[f]], routers[..r], name)
      {
        var reading := ReadFsFile(normalize, files[f], routers[r]);
        ServedMore(normalize, [files[f]], routers[..r], routers[r]);
        TakeMore(routers, r);
        ServedByOne(normalize, files[f], routers[r]);
        if reading.Route? {
          names := names + {reading.application};
        }
      }
      assert routers[..|routers|] == routers;
      TakeMore(files, f);
      ServedFurther(normalize, files[..f], files[f], routers);
    }
    assert files[..|files|] == files;
  }

  /** Some router serves some file in the application. */
  ghost predicate ServedIn(normalize: Normalize, files: seq<string>, routers: seq<Router>, name: string) {
    exists f, r | 0 <= f < |files| && 0 <= r < |routers| :: ServedAt(Reading(normalize, files[f], routers[r]), name)
  }

  predicate ServedAt(reading: FileReading, name: string) {
    reading.Route? && reading.application == name
  }

  lemma ServedMore(normalize: Normalize, files: seq<string>, routers: seq<Router>, router: Router)
    ensures forall name :: ServedIn(normalize, files, routers + [router], name)
                      <==> ServedIn(normalize, files, routers, name) || ServedIn(normalize, files, [router], name)
  {
    forall name | ServedIn(normalize, files, routers, name) || ServedIn(normalize, files, [router], name)
      ensures ServedIn(normalize, files, routers + [router], name)
    {
      if f, r :| 0 <= f < |files| && 0 <= r < |routers| && ServedAt(Reading(normalize, files[f], routers[r]), name) {
        assert (routers + [router])[r] == routers[r];
      } else {
        var f, r :| 0 <= f < |files| && 0 <= r < 1 && ServedAt(Reading(normalize, files[f], [router][r]), name);
        assert (routers + [router])[|routers|] == [router][r];
      }
    }
  }

  lemma ServedFurther(normalize: Normalize, files: seq<string>, file: string, routers: seq<Router>)
    ensures forall name :: ServedIn(normalize, files + [file], routers, name)
                      <==> ServedIn(normalize, files, routers, name) || ServedIn(normalize, [file], routers, name)
  {
    forall name | ServedIn(normalize, files, routers, name) || ServedIn(normalize, [file], routers, name)
      ensures ServedIn(normalize, files + [file], routers, name)
    {
      if f, r :| 0 <= f < |files| && 0 <= r < |routers| && ServedAt(Reading(normalize, files[f], routers[r]), name) {
        assert (files + [file])[f] == files[f];
      } else {
        var f, r :| 0 <= f < 1 && 0 <= r < |routers| && ServedAt(Reading(normalize, [file][f], routers[r]), name);
        assert (files + [file])[|files|] == [file][f];
      }
    }
  }

  lemma ServedByOne(normalize: Normalize, file: string, router: Router)
    ensures forall name ::
            ServedIn(normalize, [file], [router], name) <==> ServedAt(Reading(normalize, file, router), name)
  {
    forall name | ServedAt(Reading(normalize, file, router), name) ensures ServedIn(normalize, [file], [router], name) {
      assert [file][0] == file && [router][0] == router;
    }
  }
}
