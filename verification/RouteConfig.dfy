/**
 * A route config flattened to the table of modules and addresses it declares
 * (`under`, the helper table, `flatRoutesAt` and `routesIn` in
 * `route-config.ts`), against what the nested config says.
 */
module RouteConfig {
  import opened Wrappers
  import opened Seqs
  import opened Text

  /** A list of routes: written out, the files of a directory read by the flat convention, or neither. */
  datatype Listed = Elements(elements: seq<Element>) | FlatRoutes(root: string) | UnreadList

  /** An element of a list: a call by name, a directory's flat routes, or something that is no call. */
  datatype Element = Call(name: string, arguments: seq<Argument>) | FlatCall(root: string) | UnreadElement

  datatype Argument = Literal(text: string) | List(list: Listed) | UnreadArgument

  /** One row of the flat table. */
  datatype Configured = Configured(module_: string, rawPath: string)

  /** What the other reader gives for a directory, kept as a parameter: modules and rooted addresses. */
  type FlatTable = string -> seq<Configured>

  const NESTING_DEPTH := 16

  /** Joins a child's path to where its parent stands. */
  function Under(parent: string, path: string): string {
    "/" + Join(NonEmpty(Split(parent, '/') + Split(path, '/')), '/')
  }

  function LiteralOf(arguments: seq<Argument>, at: nat): Option<string> {
    if at < |arguments| && arguments[at].Literal? then Some(arguments[at].text) else None
  }

  /** The list in the last position, if one stands there past the given position. */
  function ChildrenOf(arguments: seq<Argument>, from: nat): (children: Option<Listed>)
    ensures children.Some? ==> |arguments| > 0 && arguments[|arguments| - 1] == List(children.value)
  {
    if |arguments| > from && arguments[|arguments| - 1].List? && !arguments[|arguments| - 1].list.UnreadList?
    then Some(arguments[|arguments| - 1].list) else None
  }

  /** A helper call evaluated: its own module, if any, its path, and the list below it, if any. */
  datatype Declared = Declared(module_: Option<string>, path: string, children: Option<Listed>)

  function DeclaredBy(name: string, arguments: seq<Argument>, parent: string): (declared: Option<Declared>)
    ensures declared.Some? && declared.value.children.Some? ==>
              |arguments| > 0 && arguments[|arguments| - 1] == List(declared.value.children.value)
  {
    var first := LiteralOf(arguments, 0);
    if name == "route" then
      if first.None? then None
      else Some(Declared(LiteralOf(arguments, 1), Under(parent, first.value), ChildrenOf(arguments, 2)))
    else if name == "index" then Some(Declared(first, parent, None))
    else if name == "layout" then Some(Declared(first, parent, ChildrenOf(arguments, 1)))
    else if name == "prefix" then
      if first.None? then None else Some(Declared(None, Under(parent, first.value), ChildrenOf(arguments, 1)))
    else None
  }

  /** The routes of a directory, under the address its call sits at. */
  function FlatRoutesAt(root: string, parent: string, flat: FlatTable): seq<Configured> {
    seq(|flat(root)|, i requires 0 <= i < |flat(root)| => Configured(flat(root)[i].module_,
        Under(parent, flat(root)[i].rawPath)))
  }

  function Length(list: Listed): nat {
    if list.Elements? then |list.elements| else 0
  }

  /** The routes one list declares, its nested lists included. */
  function RoutesIn(list: Listed, parent: string, depth: nat, flat: FlatTable): seq<Configured>
    decreases list, Length(list) + 1
  {
    if depth > NESTING_DEPTH then []
    else match list
      case FlatRoutes(root) => FlatRoutesAt(root, parent, flat)
      case Elements(elements) => RoutesUpTo(list, |elements|, parent, depth, flat)
      case UnreadList => []
  }

  function RoutesUpTo(list: Listed, count: nat, parent: string, depth: nat, flat: FlatTable): seq<Configured>
    requires list.Elements? && count <= |list.elements|
    decreases list, count
  {
    if count == 0 then []
    else RoutesUpTo(list, count - 1, parent, depth, flat) + RoutesOf(list.elements[count - 1], parent, depth, flat)
  }

  function RoutesOf(element: Element, parent: string, depth: nat, flat: FlatTable): seq<Configured>
    decreases element, 0
  {
    match element
    case FlatCall(root) => FlatRoutesAt(root, parent, flat)
    case UnreadElement => []
    case Call(name, arguments) =>
      var declared := DeclaredBy(name, arguments, parent);
      if declared.None? then []
      else
        var own := if declared.value.module_.None? then []
          else [Configured(declared.value.module_.value, declared.value.path)];
        own + (if declared.value.children.None? then []
          else RoutesIn(declared.value.children.value, declared.value.path, depth + 1, flat))
  }

  function ConfiguredRoutes(exported: Option<Listed>, flat: FlatTable): seq<Configured> {
    if exported.None? then [] else RoutesIn(exported.value, "/", 0, flat)
  }

  // ---- what a nested config says ----

  /** The segments a helper's own path adds to what stands below it, where it is a helper that stands. */
  function Adds(name: string, arguments: seq<Argument>): Option<seq<string>> {
    if name == "route" || name == "prefix" then
      if LiteralOf(arguments, 0).None? then None else Some(Segments(LiteralOf(arguments, 0).value))
    else if name == "index" || name == "layout" then Some([])
    else None
  }

  /** The module a helper names. */
  function Names(name: string, arguments: seq<Argument>): Option<string> {
    if name == "route" then LiteralOf(arguments, 1)
    else if name == "index" || name == "layout" then LiteralOf(arguments, 0)
    else None
  }

  /** The list a helper holds. */
  function Holds(name: string, arguments: seq<Argument>): (children: Option<Listed>)
    ensures children.Some? ==> |arguments| > 0 && arguments[|arguments| - 1] == List(children.value)
  {
    if name == "route" then ChildrenOf(arguments, 2)
    else if name == "layout" || name == "prefix" then ChildrenOf(arguments, 1)
    else None
  }

  /**
   * A module answers at these segments below where the list stands, by a route
   * nested no more than so many lists deep. Every helper around it adds its own
   * segments in front, the outermost first.
   */
  ghost predicate Answers(list: Listed, mod: string, at: seq<string>, lists: nat, flat: FlatTable)
    decreases list, 0
  {
    lists > 0 && match list
      case FlatRoutes(root) => InTable(flat(root), mod, at)
      case Elements(elements) => exists i | 0 <= i < |elements| :: AnswersIn(elements[i], mod, at, lists, flat)
      case UnreadList => false
  }

  ghost predicate InTable(table: seq<Configured>, mod: string, at: seq<string>) {
    exists i | 0 <= i < |table| :: table[i].module_ == mod && Segments(table[i].rawPath) == at
  }

  ghost predicate AnswersIn(element: Element, mod: string, at: seq<string>, lists: nat, flat: FlatTable)
    requires lists > 0
    decreases element, 0
  {
    match element
    case FlatCall(root) => InTable(flat(root), mod, at)
    case UnreadElement => false
    case Call(name, arguments) =>
      && Adds(name, arguments).Some?
      && Adds(name, arguments).value <= at
      && var below := at[|Adds(name, arguments).value|..];
         || (Names(name, arguments) == Some(mod) && |below| == 0)
         || (Holds(name, arguments).Some? && Answers(Holds(name, arguments).value, mod, below, lists - 1, flat))
  }

  // ---- joining ----

  /** Joining adds the segments of one path to another's. */
  lemma UnderIsRooted(parent: string, path: string)
    ensures Under(parent, path) == Rooted(Segments(parent) + Segments(path))
    ensures Segments(Under(parent, path)) == Segments(parent) + Segments(path)
  {
    NonEmptyConcat(Split(parent, '/'), Split(path, '/'));
    SegmentsAre(parent);
    SegmentsAre(path);
    SegmentsRooted(Segments(parent) + Segments(path));
  }

  /** It does not matter which of three paths are joined first. */
  lemma UnderAssociates(a: string, b: string, c: string)
    ensures Under(Under(a, b), c) == Under(a, Under(b, c))
  {
    UnderIsRooted(a, b);
    UnderIsRooted(b, c);
    UnderIsRooted(Under(a, b), c);
    UnderIsRooted(a, Under(b, c));
    Associates(Segments(a), Segments(b), Segments(c));
  }

  // ---- flattening keeps what the config says ----

  /** The table holds the module at the address. */
  ghost predicate Tabled(table: seq<Configured>, mod: string, rawPath: string) {
    Configured(mod, rawPath) in table
  }

  lemma TabledConcat(a: seq<Configured>, b: seq<Configured>, mod: string, rawPath: string)
    ensures Tabled(a + b, mod, rawPath) <==> Tabled(a, mod, rawPath) || Tabled(b, mod, rawPath)
  {
  }

  /** An address below a parent that is itself rooted. */
  function Below(parent: string, at: seq<string>): string {
    Rooted(Segments(parent) + at)
  }

  predicate IsRooted(path: string) {
    Rooted(Segments(path)) == path
  }

  lemma BelowApart(parent: string, a: seq<string>, b: seq<string>)
    requires AreSegments(a) && AreSegments(b)
    ensures Below(parent, a) == Below(parent, b) <==> a == b
  {
    SegmentsAre(parent);
    SegmentsRooted(Segments(parent) + a);
    SegmentsRooted(Segments(parent) + b);
    if Below(parent, a) == Below(parent, b) {
      assert (Segments(parent) + a)[|Segments(parent)|..] == a;
      assert (Segments(parent) + b)[|Segments(parent)|..] == b;
    }
  }

  lemma FlatTabled(root: string, parent: string, flat: FlatTable, mod: string, at: seq<string>)
    requires AreSegments(at)
    ensures Tabled(FlatRoutesAt(root, parent, flat), mod, Below(parent, at)) <==> InTable(flat(root), mod, at)
  {
    var table, placed := flat(root), FlatRoutesAt(root, parent, flat);
    forall i | 0 <= i < |table| ensures placed[i].rawPath == Below(parent, at) <==> Segments(table[i].rawPath) == at {
      UnderIsRooted(parent, table[i].rawPath);
      SegmentsAre(table[i].rawPath);
      BelowApart(parent, Segments(table[i].rawPath), at);
    }
    if Tabled(placed, mod, Below(parent, at)) {
      var i :| 0 <= i < |placed| && placed[i] == Configured(mod, Below(parent, at));
      assert table[i].module_ == mod;
    }
    if i :| 0 <= i < |table| && table[i].module_ == mod && Segments(table[i].rawPath) == at {
      assert placed[i] == Configured(mod, Below(parent, at));
    }
  }

  /** A list's table holds a module at an address exactly when the nested list says the module answers there. */
  lemma {:induction false} ListTabled(
      list: Listed, parent: string, depth: nat, flat: FlatTable, mod: string, at: seq<string>)
    requires IsRooted(parent) && AreSegments(at) && depth <= NESTING_DEPTH + 1
    ensures Tabled(RoutesIn(list, parent, depth, flat), mod, Below(parent, at))
       <==> Answers(list, mod, at, NESTING_DEPTH + 1 - depth, flat)
    decreases list, Length(list) + 1
  {
    if depth <= NESTING_DEPTH {
      match list {
        case FlatRoutes(root) => FlatTabled(root, parent, flat, mod, at);
        case Elements(elements) => ElementsTabled(list, |elements|, parent, depth, flat, mod, at);
        case UnreadList =>
      }
    }
  }

  lemma {:induction false} ElementsTabled(
      list: Listed, count: nat, parent: string, depth: nat, flat: FlatTable, mod: string, at: seq<string>)
    requires IsRooted(parent) && AreSegments(at) && depth <= NESTING_DEPTH
    requires list.Elements? && count <= |list.elements|
    ensures Tabled(RoutesUpTo(list, count, parent, depth, flat), mod, Below(parent, at))
       <==> exists i | 0 <= i < count :: AnswersIn(list.elements[i], mod, at, NESTING_DEPTH + 1 - depth, flat)
    decreases list, count
  {
    if count > 0 {
      ElementsTabled(list, count - 1, parent, depth, flat, mod, at);
      ElementTabled(list.elements[count - 1], parent, depth, flat, mod, at);
      TabledConcat(
        RoutesUpTo(list, count - 1, parent, depth, flat), RoutesOf(list.elements[count - 1], parent, depth, flat), mod,
            Below(parent, at));
    }
  }

  lemma {:induction false} ElementTabled(
      element: Element, parent: string, depth: nat, flat: FlatTable, mod: string, at: seq<string>)
    requires IsRooted(parent) && AreSegments(at) && depth <= NESTING_DEPTH
    ensures Tabled(RoutesOf(element, parent, depth, flat), mod, Below(parent, at))
       <==> AnswersIn(element, mod, at, NESTING_DEPTH + 1 - depth, flat)
    decreases element, 0
  {
    match element {
      case FlatCall(root) => FlatTabled(root, parent, flat, mod, at);
      case UnreadElement =>
      case Call(name, arguments) =>
        if Adds(name, arguments).Some? {
          var adds := Adds(name, arguments).value;
          var declared := DeclaredBy(name, arguments, parent).value;
          DeclaredAdds(name, arguments, parent);
          if declared.children.Some? {
            if adds <= at {
              ListTabled(declared.children.value, declared.path, depth + 1, flat, mod, at[|adds|..]);
              BelowRest(declared.path, parent, adds, at);
            } else {
              AllBelow(declared.children.value, declared.path, depth + 1, flat, mod, Below(parent, at));
              NotBelow(declared.path, parent, adds, at);
            }
          }
          CallTabled(name, arguments, parent, depth, flat, mod, at);
        }
    }
  }

  lemma BelowRest(path: string, parent: string, adds: seq<string>, at: seq<string>)
    requires Segments(path) == Segments(parent) + adds && adds <= at
    ensures Below(path, at[|adds|..]) == Below(parent, at)
  {
    assert Segments(parent) + at == (Segments(parent) + adds) + at[|adds|..];
  }

  /** What a helper names, and what the list it holds comes to, is what its element comes to. */
  lemma CallTabled(
      name: string, arguments: seq<Argument>, parent: string, depth: nat, flat: FlatTable, mod: string, at: seq<string>)
    requires IsRooted(parent) && AreSegments(at) && depth <= NESTING_DEPTH && Adds(name, arguments).Some?
    requires var adds, children := Adds(name, arguments).value, Holds(name, arguments);
             children.Some? ==>
               (Tabled(RoutesIn(children.value, Below(parent, adds), depth + 1, flat), mod, Below(parent, at))
                <==> adds <= at && Answers(children.value, mod, at[|adds|..], NESTING_DEPTH - depth, flat))
    ensures Tabled(RoutesOf(Call(name, arguments), parent, depth, flat), mod, Below(parent, at))
       <==> AnswersIn(Call(name, arguments), mod, at, NESTING_DEPTH + 1 - depth, flat)
  {
    var adds := Adds(name, arguments).value;
    var declared := DeclaredBy(name, arguments, parent).value;
    DeclaredAdds(name, arguments, parent);
    OwnTabled(declared.path, adds, parent, at);
    var own := if declared.module_.None? then [] else [Configured(declared.module_.value, declared.path)];
    var held := if declared.children.None? then []
                else RoutesIn(declared.children.value, declared.path, depth + 1, flat);
    TabledConcat(own, held, mod, Below(parent, at));
  }

  /** What a helper declares is what it names and holds, at its parent's address and the segments it adds. */
  lemma DeclaredAdds(name: string, arguments: seq<Argument>, parent: string)
    requires IsRooted(parent) && Adds(name, arguments).Some?
    ensures DeclaredBy(name, arguments, parent).Some?
    ensures DeclaredBy(name, arguments, parent).value.module_ == Names(name, arguments)
    ensures DeclaredBy(name, arguments, parent).value.children == Holds(name, arguments)
    ensures DeclaredBy(name, arguments, parent).value.path == Below(parent, Adds(name, arguments).value)
    ensures IsRooted(DeclaredBy(name, arguments, parent).value.path)
    ensures Segments(DeclaredBy(name, arguments, parent).value.path) == Segments(parent) + Adds(name, arguments).value
    ensures AreSegments(Adds(name, arguments).value)
  {
    var first := LiteralOf(arguments, 0);
    ConcatEmpty(Segments(parent), []);
    if first.Some? {
      UnderIsRooted(parent, first.value);
      SegmentsAre(first.value);
    }
  }

  lemma OwnTabled(path: string, adds: seq<string>, parent: string, at: seq<string>)
    requires path == Below(parent, adds) && AreSegments(adds) && AreSegments(at)
    ensures path == Below(parent, at) <==> adds <= at && |at[|adds|..]| == 0
  {
    BelowApart(parent, adds, at);
    if adds <= at && |at| == |adds| {
      assert adds == at;
    }
  }

  lemma NotBelow(path: string, parent: string, adds: seq<string>, at: seq<string>)
    requires Segments(path) == Segments(parent) + adds
    requires AreSegments(adds) && AreSegments(at) && !(adds <= at)
    ensures forall more | AreSegments(more) :: Below(path, more) != Below(parent, at)
  {
    forall more | AreSegments(more) ensures Below(path, more) != Below(parent, at) {
      Associates(Segments(parent), adds, more);
      BelowApart(parent, adds + more, at);
      assert adds <= adds + more;
    }
  }

  ghost predicate IsBelow(parent: string, rawPath: string) {
    exists more :: AreSegments(more) && rawPath == Below(parent, more)
  }

  lemma BelowThrough(parent: string, adds: seq<string>, path: string, rawPath: string)
    requires IsRooted(parent) && AreSegments(adds) && Segments(path) == Segments(parent) + adds
    requires IsBelow(path, rawPath)
    ensures IsBelow(parent, rawPath)
  {
    var more :| AreSegments(more) && rawPath == Below(path, more);
    Associates(Segments(parent), adds, more);
    assert AreSegments(adds + more) && rawPath == Below(parent, adds + more);
  }

  /** Every address of a list's table is below where the list stands. */
  lemma {:induction false} AllBelow(
      list: Listed, parent: string, depth: nat, flat: FlatTable, mod: string, rawPath: string)
    requires IsRooted(parent)
    ensures Tabled(RoutesIn(list, parent, depth, flat), mod, rawPath) ==> IsBelow(parent, rawPath)
    decreases list, Length(list) + 1
  {
    if depth <= NESTING_DEPTH && Tabled(RoutesIn(list, parent, depth, flat), mod, rawPath) {
      match list {
        case FlatRoutes(root) => FlatBelow(root, parent, flat, mod, rawPath);
        case Elements(elements) => ElementsBelow(list, |elements|, parent, depth, flat, mod, rawPath);
      }
    }
  }

  lemma FlatBelow(root: string, parent: string, flat: FlatTable, mod: string, rawPath: string)
    requires Tabled(FlatRoutesAt(root, parent, flat), mod, rawPath)
    ensures IsBelow(parent, rawPath)
  {
    var placed := FlatRoutesAt(root, parent, flat);
    var i :| 0 <= i < |placed| && placed[i] == Configured(mod, rawPath);
    UnderIsRooted(parent, flat(root)[i].rawPath);
    SegmentsAre(flat(root)[i].rawPath);
    assert rawPath == Below(parent, Segments(flat(root)[i].rawPath));
  }

  lemma {:induction false} ElementsBelow(
      list: Listed, count: nat, parent: string, depth: nat, flat: FlatTable, mod: string, rawPath: string)
    requires IsRooted(parent) && list.Elements? && count <= |list.elements|
    requires Tabled(RoutesUpTo(list, count, parent, depth, flat), mod, rawPath)
    ensures IsBelow(parent, rawPath)
    decreases list, count
  {
    TabledConcat(
      RoutesUpTo(list, count - 1, parent, depth, flat), RoutesOf(list.elements[count - 1], parent, depth, flat), mod,
          rawPath);
    if Tabled(RoutesUpTo(list, count - 1, parent, depth, flat), mod, rawPath) {
      ElementsBelow(list, count - 1, parent, depth, flat, mod, rawPath);
    } else {
      ElementBelow(list.elements[count - 1], parent, depth, flat, mod, rawPath);
    }
  }

  lemma {:induction false} ElementBelow(
      element: Element, parent: string, depth: nat, flat: FlatTable, mod: string, rawPath: string)
    requires IsRooted(parent)
    requires Tabled(RoutesOf(element, parent, depth, flat), mod, rawPath)
    ensures IsBelow(parent, rawPath)
    decreases element, 0
  {
    if element.FlatCall? {
      FlatBelow(element.root, parent, flat, mod, rawPath);
    } else {
      var declared := DeclaredBy(element.name, element.arguments, parent).value;
      DeclaredAdds(element.name, element.arguments, parent);
      var adds := Adds(element.name, element.arguments).value;
      if rawPath == declared.path {
        assert IsBelow(parent, Below(parent, adds));
      } else {
        AllBelow(declared.children.value, declared.path, depth + 1, flat, mod, rawPath);
        BelowThrough(parent, adds, declared.path, rawPath);
      }
    }
  }

  /** The flat table holds a module at an address exactly when the config, as far down as it is followed, says so. */
  lemma FlatteningKeepsMeaning(list: Listed, flat: FlatTable, mod: string, at: seq<string>)
    requires AreSegments(at)
    ensures Tabled(ConfiguredRoutes(Some(list), flat), mod, Rooted(at))
       <==> Answers(list, mod, at, NESTING_DEPTH + 1, flat)
  {
    var none: seq<string> := [];
    SegmentsRooted(none);
    assert Rooted(none) == "/";
    ListTabled(list, "/", 0, flat, mod, at);
    ConcatEmpty(none, at);
  }

  /** And it holds no other address. */
  lemma OnlyRootedAddresses(list: Listed, flat: FlatTable, mod: string, rawPath: string)
    requires Tabled(ConfiguredRoutes(Some(list), flat), mod, rawPath)
    ensures AreSegments(Segments(rawPath)) && rawPath == Rooted(Segments(rawPath))
  {
    var none: seq<string> := [];
    SegmentsRooted(none);
    assert Rooted(none) == "/";
    AllBelow(list, "/", 0, flat, mod, rawPath);
    var more :| AreSegments(more) && rawPath == Below("/", more);
    ConcatEmpty(none, more);
    SegmentsRooted(more);
  }

  // ---- how deep a config nests ----

  /** How many lists a list nests, itself included. */
  function Nesting(list: Listed): nat
    decreases list, Length(list) + 1
  {
    if list.Elements? then 1 + DeepestUpTo(list, |list.elements|) else 1
  }

  function DeepestUpTo(list: Listed, count: nat): nat
    requires list.Elements? && count <= |list.elements|
    decreases list, count
  {
    if count == 0 then 0
    else
      var before, last := DeepestUpTo(list, count - 1), NestingOf(list.elements[count - 1]);
      if last > before then last else before
  }

  function NestingOf(element: Element): nat
    decreases element, 0
  {
    if element.Call? && Holds(element.name, element.arguments).Some?
    then Nesting(Holds(element.name, element.arguments).value) else 0
  }

  lemma {:induction false} DeepestIsDeepest(list: Listed, count: nat, i: nat)
    requires list.Elements? && i < count <= |list.elements|
    ensures NestingOf(list.elements[i]) <= DeepestUpTo(list, count)
    decreases count
  {
    if i < count - 1 {
      DeepestIsDeepest(list, count - 1, i);
    }
  }

  /** Of a list that nests no deeper, more lists to go through change nothing. */
  lemma {:induction false} NothingDeeper(
      list: Listed, mod: string, at: seq<string>, lists: nat, more: nat, flat: FlatTable)
    requires Nesting(list) <= lists <= more
    ensures Answers(list, mod, at, lists, flat) <==> Answers(list, mod, at, more, flat)
    decreases list
  {
    if list.Elements? {
      forall i | 0 <= i < |list.elements|
        ensures AnswersIn(list.elements[i], mod, at, lists, flat) <==> AnswersIn(list.elements[i], mod, at, more, flat)
      {
        var element := list.elements[i];
        DeepestIsDeepest(list, |list.elements|, i);
        if element.Call? && Adds(element.name, element.arguments).Some?
          && Adds(element.name, element.arguments).value <= at
           && Holds(element.name, element.arguments).Some? {
          NothingDeeper(
            Holds(element.name, element.arguments).value, mod, at[|Adds(element.name, element.arguments).value|..],
            lists - 1, more - 1, flat);
        }
      }
    }
  }

  /**
   * A config whose lists nest within the depth followed is flattened whole,
   * however many lists one would go through.
   */
  lemma WithinDepthNothingIsLost(list: Listed, flat: FlatTable, mod: string, at: seq<string>, lists: nat)
    requires AreSegments(at) && Nesting(list) <= NESTING_DEPTH + 1 <= lists
    ensures Tabled(ConfiguredRoutes(Some(list), flat), mod, Rooted(at)) <==> Answers(list, mod, at, lists, flat)
  {
    FlatteningKeepsMeaning(list, flat, mod, at);
    NothingDeeper(list, mod, at, NESTING_DEPTH + 1, lists, flat);
  }
}
