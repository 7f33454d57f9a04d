/**
 * Reading a handler expression back to front (`unwrapChain` in
 * `deployed-functions.ts`), against an interpreter of the expression that lists
 * what runs in the order it runs.
 */
module WrapperChain {
  import opened Wrappers
  import opened Seqs

  type Work = nat

  /** An argument of a method call, and the function it stands for, if it stands for one. */
  datatype Argument = Argument(text: string, work: Option<Work>)

  /**
   * A handler expression: a function; a method called on a call (on anything
   * else it is a call like any other); any other call, with the one argument it
   * wraps where it wraps one; a name bound to a call; or nothing this can follow.
   */
  datatype Expr =
    | Function(work: Work)
    | Method(receiver: Expr, arguments: seq<Argument>)
    | Wrapper(callee: string, argument: Option<Expr>)
    | Bound(call: Expr)
    | Other(id: nat)

  /** One thing that runs in front of the function: a wrapper, or what a method was handed. */
  datatype Item = Callee(text: string) | Handed(argument: Argument)

  predicate IsCall(e: Expr) {
    e.Method? || e.Wrapper?
  }

  /** What an argument is once a name bound to a call is read through. */
  function Next(e: Expr): Expr {
    if e.Bound? && IsCall(e.call) then e.call else e
  }

  function WorkIn(e: Expr): Option<Work> {
    if e.Function? then Some(e.work) else None
  }

  // ---- what runs, in the order it runs ----

  /** What the methods of a chain were handed, in the order they are called. */
  function Methods(e: Expr): seq<Item> {
    if e.Method? then Methods(e.receiver) + AllHanded(e.arguments) else []
  }

  function AllHanded(arguments: seq<Argument>): seq<Item> {
    if |arguments| == 0 then [] else [Handed(arguments[0])] + AllHanded(arguments[1..])
  }

  /**
   * A wrapper runs and then what it wraps; an engine runs what its methods were
   * handed, in the order they were called, and then what it wraps.
   */
  function Runs(e: Expr): seq<Item>
    decreases e, 1
  {
    match e
    case Method(_, _) => Methods(e) + RunsInside(e)
    case Wrapper(callee, argument) => if argument.None? then [] else [Callee(callee)] + RunsInside(e)
    case Bound(call) => if IsCall(call) then Runs(call) else []
    case _ => []
  }

  /** What runs once a chain of methods, or a wrapper, hands on. */
  function RunsInside(e: Expr): seq<Item>
    decreases e, 0
  {
    match e
    case Method(receiver, _) => RunsInside(receiver)
    case Wrapper(_, argument) => if argument.None? then [] else Runs(argument.value)
    case _ => []
  }

  /** The function that runs last. */
  function Innermost(e: Expr): Option<Work>
    decreases e, 1
  {
    match e
    case Function(work) => Some(work)
    case Bound(call) => if IsCall(call) then Innermost(call) else None
    case _ => InnermostInside(e)
  }

  function InnermostInside(e: Expr): Option<Work>
    decreases e, 0
  {
    match e
    case Method(receiver, _) => InnermostInside(receiver)
    case Wrapper(_, argument) => if argument.None? then None else Innermost(argument.value)
    case _ => None
  }

  // ---- the reading ----

  /** What is known while a chain is read back: the function, and what is to go in front of it. */
  datatype Reading = Reading(inner: Option<Work>, wrapping: seq<Item>)

  /** The arguments of one method call: the first function becomes the handler if there is none yet. */
  function Taken(arguments: seq<Argument>, inner: Option<Work>): Reading {
    if |arguments| == 0 then Reading(inner, [])
    else
      var first := arguments[0];
      if first.work.Some? && inner.None? then Taken(arguments[1..], first.work)
      else
        var rest := Taken(arguments[1..], inner);
        Reading(rest.inner, [Handed(first)] + rest.wrapping)
  }

  function CalleeOf(e: Expr, viaMethods: bool): seq<Item> {
    if viaMethods || !e.Wrapper? then [] else [Callee(e.callee)]
  }

  /** What reading on from an expression adds, a number of calls further at most. */
  function ReadFrom(e: Expr, depth: nat, chained: seq<Item>, viaMethods: bool, inner: Option<Work>): Reading
    decreases depth
  {
    if depth == 0 then Reading(inner, chained)
    else match e
      case Method(receiver, arguments) =>
        var taken := Taken(arguments, inner);
        ReadFrom(receiver, depth - 1, taken.wrapping + chained, true, taken.inner)
      case Wrapper(_, argument) =>
        if argument.None? then Reading(inner, chained)
        else
          var here := CalleeOf(e, viaMethods) + chained;
          var work := WorkIn(argument.value);
          if work.Some? then Reading(if inner.Some? then inner else work, here)
          else
            var rest := ReadFrom(Next(argument.value), depth - 1, [], false, inner);
            Reading(rest.inner, here + rest.wrapping)
      case _ => Reading(inner, chained)
  }

  /** How many calls are read at most. */
  const MOST_CALLS := 16

  function Read(start: Expr): Reading {
    ReadFrom(start, MOST_CALLS, [], false, None)
  }

  /** A reading with more in front of it. */
  function Behind(before: seq<Item>, reading: Reading): Reading {
    Reading(reading.inner, before + reading.wrapping)
  }

  lemma MethodRead(e: Expr, depth: nat, chained: seq<Item>, viaMethods: bool, inner: Option<Work>)
    requires e.Method? && depth > 0
    ensures ReadFrom(e, depth, chained, viaMethods, inner)
         == var taken := Taken(e.arguments, inner);
            ReadFrom(e.receiver, depth - 1, taken.wrapping + chained, true, taken.inner)
  {
  }

  lemma WrapperRead(e: Expr, depth: nat, chained: seq<Item>, viaMethods: bool, inner: Option<Work>, before: seq<Item>)
    requires e.Wrapper? && e.argument.Some? && depth > 0
    ensures Behind(before, ReadFrom(e, depth, chained, viaMethods, inner))
         == if WorkIn(e.argument.value).Some?
            then Reading(if inner.Some? then inner
              else WorkIn(e.argument.value), before + CalleeOf(e, viaMethods) + chained)
            else Behind(before + CalleeOf(e, viaMethods) + chained,
                ReadFrom(Next(e.argument.value), depth - 1, [], false, inner))
  {
    var here := CalleeOf(e, viaMethods) + chained;
    Associates(before, CalleeOf(e, viaMethods), chained);
    Associates(before, here, ReadFrom(Next(e.argument.value), depth - 1, [], false, inner).wrapping);
  }

  /** The loop over at most sixteen calls, equal to the recursive `Read`. */
  method UnwrapChain(start: Expr) returns (inner: Option<Work>, wrapping: seq<Item>)
    ensures Reading(inner, wrapping) == Read(start)
  {
    var ordered: seq<Item> := [];
    var chained: seq<Item> := [];
    inner := None;
    var expression := start;
    var viaMethods := false;
    var depth := 0;
    ghost var all := Read(start);
    while depth < MOST_CALLS && IsCall(expression)
      invariant 0 <= depth <= MOST_CALLS
      invariant all == Behind(ordered, ReadFrom(expression, MOST_CALLS - depth, chained, viaMethods, inner))
    {
      if expression.Method? {
        viaMethods := true;
        var written: seq<Item> := [];
        MethodRead(expression, MOST_CALLS - depth, chained, viaMethods, inner);
        inner, written := TakeHandler(expression.arguments, inner);
        chained := written + chained;
        expression := expression.receiver;
        depth := depth + 1;
        continue;
      }
      if expression.argument.None? {
        break;
      }
      WrapperRead(expression, MOST_CALLS - depth, chained, viaMethods, inner, ordered);
      ConcatEmpty(ordered, []);
      if !viaMethods {
        ordered := ordered + [Callee(expression.callee)];
      }
      ordered := ordered + chained;
      chained := [];
      viaMethods := false;
      var work := WorkIn(expression.argument.value);
      if work.Some? {
        inner := if inner.Some? then inner else work;
        wrapping := ordered;
        return;
      }
      expression := Next(expression.argument.value);
      depth := depth + 1;
    }
    wrapping := ordered + chained;
  }

  method TakeHandler(arguments: seq<Argument>, found: Option<Work>) returns (inner: Option<Work>, written: seq<Item>)
    ensures Reading(inner, written) == Taken(arguments, found)
  {
    inner := found;
    written := [];
    for i := 0 to |arguments|
      invariant var rest := Taken(arguments[i..], inner);
                Taken(arguments, found) == Reading(rest.inner, written + rest.wrapping)
    {
      var argument := arguments[i];
      assert arguments[i..][0] == argument && arguments[i..][1..] == arguments[i + 1..];
      if argument.work.Some? && inner.None? {
        inner := argument.work;
        continue;
      }
      Associates(written, [Handed(argument)], Taken(arguments[i + 1..], inner).wrapping);
      written := written + [Handed(argument)];
    }
    ConcatEmpty(written, []);
  }

  // ---- what the reading comes to ----

  /** How many calls stand between an expression and the function it wraps. */
  function Calls(e: Expr): nat
    decreases e
  {
    match e
    case Method(receiver, _) => 1 + Calls(receiver)
    case Wrapper(_, argument) => 1 + (if argument.None? then 0 else Calls(argument.value))
    case Bound(call) => if IsCall(call) then Calls(call) else 0
    case _ => 0
  }

  /** A method was handed a function itself. */
  predicate HandsWork(item: Item) {
    item.Handed? && item.argument.work.Some?
  }

  predicate NoWork(items: seq<Item>) {
    forall i | 0 <= i < |items| :: !HandsWork(items[i])
  }

  /** What runs from an expression on, with what is already read of its chain put where it runs. */
  function RunsWith(e: Expr, chained: seq<Item>, viaMethods: bool): seq<Item> {
    match e
    case Method(_, _) => Methods(e) + chained + RunsInside(e)
    case Wrapper(_, argument) => if argument.None? then chained else CalleeOf(e, viaMethods) + chained + RunsInside(e)
    case _ => chained
  }

  /** What an expression itself runs in front of the function. */
  function RunsOwn(e: Expr): seq<Item> {
    if e.Method? then Methods(e) + RunsInside(e) else RunsInside(e)
  }

  lemma {:induction false} TakenAll(arguments: seq<Argument>, inner: Option<Work>)
    requires inner.Some? || NoWork(AllHanded(arguments))
    ensures Taken(arguments, inner) == Reading(inner, AllHanded(arguments))
  {
    if |arguments| > 0 {
      ConsTail(Handed(arguments[0]), AllHanded(arguments[1..]));
      assert AllHanded(arguments)[0] == Handed(arguments[0]) && AllHanded(arguments)[1..] == AllHanded(arguments[1..]);
      TakenAll(arguments[1..], inner);
    }
  }

  lemma NoWorkConcat(a: seq<Item>, b: seq<Item>)
    ensures NoWork(a + b) <==> NoWork(a) && NoWork(b)
  {
    if NoWork(a + b) {
      forall i | 0 <= i < |a| ensures !HandsWork(a[i]) { assert (a + b)[i] == a[i]; }
      forall i | 0 <= i < |b| ensures !HandsWork(b[i]) { assert (a + b)[|a| + i] == b[i]; }
    }
  }

  // ---- one call at a time ----

  /** Below a method, what is read of the chain stands between what runs before it and what runs inside. */
  lemma RunsWithin(e: Expr, chained: seq<Item>)
    ensures RunsWith(e, chained, true) == Methods(e) + chained + RunsInside(e)
  {
    if !e.Method? {
      ConcatEmpty(chained, chained);
    }
  }

  /** A method runs what the calls before it were handed and then what it was handed. */
  lemma MethodRuns(e: Expr, chained: seq<Item>, viaMethods: bool)
    requires e.Method?
    ensures RunsWith(e, chained, viaMethods) == RunsWith(e.receiver, AllHanded(e.arguments) + chained, true)
    ensures RunsWith(e, chained, viaMethods)
         == Methods(e.receiver) + (AllHanded(e.arguments) + chained) + RunsInside(e.receiver)
  {
    RunsWithin(e.receiver, AllHanded(e.arguments) + chained);
    Associates(Methods(e.receiver), AllHanded(e.arguments), chained);
  }

  /** What a method runs is handed to it, or is what its receiver runs. */
  lemma MethodOwn(e: Expr)
    requires e.Method?
    ensures NoWork(RunsOwn(e)) <==> NoWork(RunsOwn(e.receiver)) && NoWork(AllHanded(e.arguments))
  {
    NoWorkConcat(Methods(e.receiver), AllHanded(e.arguments));
    NoWorkConcat(Methods(e), RunsInside(e));
    NoWorkConcat(Methods(e.receiver), RunsInside(e.receiver));
  }

  /** What a wrapper's argument runs is what it runs read through its name, with nothing chained yet. */
  lemma ArgumentRuns(argument: Expr)
    ensures Runs(argument) == RunsWith(Next(argument), [], false)
    ensures NoWork(Runs(argument)) <==> NoWork(RunsOwn(Next(argument)))
    ensures Innermost(argument)
         == if WorkIn(argument).Some? then WorkIn(argument) else InnermostInside(Next(argument))
    ensures WorkIn(argument).Some? ==> Runs(argument) == [] && Next(argument) == argument
    ensures Calls(Next(argument)) <= Calls(argument)
  {
    var next := Next(argument);
    if IsCall(next) {
      StartRuns(next);
    } else {
      assert |RunsWith(next, [], false)| == 0 && |Runs(argument)| == 0;
    }
  }

  /** Reading an expression from its start, nothing is chained yet. */
  lemma StartRuns(e: Expr)
    requires IsCall(e)
    ensures RunsWith(e, [], false) == Runs(e)
    ensures NoWork(Runs(e)) <==> NoWork(RunsOwn(e))
  {
    ConcatEmpty(Methods(e), []);
    if e.Wrapper? && e.argument.Some? {
      ConcatEmpty([Callee(e.callee)], []);
      NoWorkConcat([Callee(e.callee)], RunsInside(e));
    }
  }

  /** A wrapper runs, with what is chained behind it, in front of its argument. */
  lemma WrapperRuns(e: Expr, chained: seq<Item>, viaMethods: bool)
    requires e.Wrapper? && e.argument.Some?
    ensures RunsWith(e, chained, viaMethods)
         == CalleeOf(e, viaMethods) + chained + RunsWith(Next(e.argument.value), [], false)
    ensures NoWork(RunsOwn(e)) <==> NoWork(RunsOwn(Next(e.argument.value)))
  {
    ArgumentRuns(e.argument.value);
  }

  // ---- no function handed to a method ----

  lemma ReadsMethod(e: Expr, depth: nat, chained: seq<Item>, viaMethods: bool, inner: Option<Work>)
    requires e.Method? && depth > 0
    requires inner.Some? || NoWork(AllHanded(e.arguments))
    ensures ReadFrom(e, depth, chained, viaMethods, inner)
         == ReadFrom(e.receiver, depth - 1, AllHanded(e.arguments) + chained, true, inner)
  {
    TakenAll(e.arguments, inner);
  }

  /** What reading an expression to its end comes to. */
  function RunFrom(e: Expr, chained: seq<Item>, viaMethods: bool, inner: Option<Work>): Reading {
    Reading(if inner.Some? then inner else InnermostInside(e), RunsWith(e, chained, viaMethods))
  }

  lemma ReadsWrapper(e: Expr, depth: nat, chained: seq<Item>, viaMethods: bool, inner: Option<Work>)
    requires e.Wrapper? && e.argument.Some? && depth > 0
    requires var next := Next(e.argument.value);
             ReadFrom(next, depth - 1, [], false, inner) == RunFrom(next, [], false, inner)
    ensures ReadFrom(e, depth, chained, viaMethods, inner) == RunFrom(e, chained, viaMethods, inner)
  {
    ArgumentRuns(e.argument.value);
    ConcatEmpty(CalleeOf(e, viaMethods) + chained, Runs(e.argument.value));
  }

  /**
   * With a function already found, or none handed to any method, the reading is
   * the run around the innermost function.
   */
  lemma {:induction false} ReadsTheRun(e: Expr, depth: nat, chained: seq<Item>, viaMethods: bool, inner: Option<Work>)
    requires Calls(e) <= depth
    requires inner.Some? || NoWork(RunsOwn(e))
    ensures ReadFrom(e, depth, chained, viaMethods, inner) == RunFrom(e, chained, viaMethods, inner)
    decreases e
  {
    if e.Method? {
      MethodOwn(e);
      ReadsMethod(e, depth, chained, viaMethods, inner);
      MethodRuns(e, chained, viaMethods);
      ReadsTheRun(e.receiver, depth - 1, AllHanded(e.arguments) + chained, true, inner);
    } else if e.Wrapper? && e.argument.Some? {
      ArgumentRuns(e.argument.value);
      ReadsTheRun(Next(e.argument.value), depth - 1, [], false, inner);
      ReadsWrapper(e, depth, chained, viaMethods, inner);
    }
  }

  // ---- a function handed to a method ----

  /** A reading that names the function handed at one place of a run, behind everything else that runs. */
  predicate TakesOut(runs: seq<Item>, k: int, reading: Reading) {
    0 <= k < |runs| && HandsWork(runs[k])
    && reading == Reading(runs[k].argument.work, runs[..k] + runs[k + 1..])
  }

  /** What stands around a run stands around what is left of it. */
  lemma TakesOutWithin(before: seq<Item>, runs: seq<Item>, after: seq<Item>, k: int, reading: Reading)
    requires TakesOut(runs, k, reading)
    ensures TakesOut(before + runs + after, |before| + k, Reading(reading.inner, before + reading.wrapping + after))
  {
    var whole := before + runs + after;
    assert whole[|before| + k] == runs[k];
    assert whole[..|before| + k] + whole[|before| + k + 1..] == before + (runs[..k] + runs[k + 1..]) + after;
  }

  lemma {:induction false} TakenOne(arguments: seq<Argument>) returns (k: nat)
    requires !NoWork(AllHanded(arguments))
    ensures TakesOut(AllHanded(arguments), k, Taken(arguments, None))
  {
    var first := Handed(arguments[0]);
    var rest := AllHanded(arguments[1..]);
    ConsTail(first, rest);
    if HandsWork(first) {
      TakenAll(arguments[1..], first.argument.work);
      ConcatEmpty(rest, rest);
      k := 0;
    } else {
      NoWorkConcat([first], rest);
      var taken := Taken(arguments[1..], None);
      var below := TakenOne(arguments[1..]);
      TakesOutWithin([first], rest, [], below, taken);
      ConcatEmpty([first] + rest, []);
      ConcatEmpty([first] + taken.wrapping, []);
      k := 1 + below;
    }
  }

  /** The last method handed a function gives the function, and all else is listed where it runs. */
  lemma MethodTakesOut(e: Expr, depth: nat, chained: seq<Item>, viaMethods: bool) returns (k: nat)
    requires e.Method? && Calls(e) <= depth
    requires !NoWork(AllHanded(e.arguments))
    ensures TakesOut(RunsWith(e, chained, viaMethods), k, ReadFrom(e, depth, chained, viaMethods, None))
  {
    var taken := Taken(e.arguments, None);
    var handed := TakenOne(e.arguments);
    ReadsTheRun(e.receiver, depth - 1, taken.wrapping + chained, true, taken.inner);
    RunsWithin(e.receiver, taken.wrapping + chained);
    MethodRuns(e, chained, viaMethods);
    k := TakesOutAmong(
      Methods(e.receiver), AllHanded(e.arguments), chained, RunsInside(e.receiver), handed, taken);
  }

  lemma TakesOutAmong(
    before: seq<Item>, runs: seq<Item>, chained: seq<Item>, inside: seq<Item>, at: nat, reading: Reading)
    returns (k: nat)
    requires TakesOut(runs, at, reading)
    ensures TakesOut(before + (runs + chained) + inside, k,
                     Reading(reading.inner, before + (reading.wrapping + chained) + inside))
  {
    TakesOutWithin([], runs, chained, at, reading);
    ConcatEmpty([], runs);
    ConcatEmpty([], reading.wrapping);
    TakesOutWithin(before, runs + chained, inside, at, Reading(reading.inner, reading.wrapping + chained));
    k := |before| + at;
  }

  /** What a wrapper's argument has taken out of it is taken out behind the wrapper. */
  lemma WrapperTakesOut(e: Expr, depth: nat, chained: seq<Item>, viaMethods: bool, below: nat)
    returns (k: nat)
    requires e.Wrapper? && e.argument.Some? && depth > 0
    requires WorkIn(e.argument.value).None?
    requires var next := Next(e.argument.value);
             TakesOut(RunsWith(next, [], false), below, ReadFrom(next, depth - 1, [], false, None))
    ensures TakesOut(RunsWith(e, chained, viaMethods), k, ReadFrom(e, depth, chained, viaMethods, None))
  {
    var next := Next(e.argument.value);
    var here := CalleeOf(e, viaMethods) + chained;
    var rest := ReadFrom(next, depth - 1, [], false, None);
    WrapperRuns(e, chained, viaMethods);
    TakesOutWithin(here, RunsWith(next, [], false), [], below, rest);
    k := |here| + below;
    ConcatEmpty(here + RunsWith(next, [], false), []);
    ConcatEmpty(here + rest.wrapping, []);
  }

  /** Wherever a function is handed to a method, one such is named, behind everything else that runs. */
  lemma {:induction false} TakesOneOut(e: Expr, depth: nat, chained: seq<Item>, viaMethods: bool) returns (k: nat)
    requires Calls(e) <= depth && !NoWork(RunsOwn(e))
    ensures TakesOut(RunsWith(e, chained, viaMethods), k, ReadFrom(e, depth, chained, viaMethods, None))
    decreases e
  {
    if e.Wrapper? {
      var next := Next(e.argument.value);
      ArgumentRuns(e.argument.value);
      WrapperRuns(e, chained, viaMethods);
      var below := TakesOneOut(next, depth - 1, [], false);
      k := WrapperTakesOut(e, depth, chained, viaMethods, below);
    } else if NoWork(AllHanded(e.arguments)) {
      MethodOwn(e);
      ReadsMethod(e, depth, chained, viaMethods, None);
      MethodRuns(e, chained, viaMethods);
      k := TakesOneOut(e.receiver, depth - 1, AllHanded(e.arguments) + chained, true);
    } else {
      k := MethodTakesOut(e, depth, chained, viaMethods);
    }
  }

  // ---- how far a chain is read as it runs ----

  /**
   * A chain of at most sixteen calls around a function is read as it runs, the
   * function with everything in front of it, exactly when no method is handed a
   * function of the repository.
   */
  lemma ReadAsItRuns(start: Expr)
    requires IsCall(start) && Calls(start) <= MOST_CALLS
    requires InnermostInside(start).Some?
    ensures Read(start) == Reading(InnermostInside(start), Runs(start)) <==> NoWork(Runs(start))
  {
    StartRuns(start);
    if NoWork(Runs(start)) {
      ReadsTheRun(start, MOST_CALLS, [], false, None);
    } else {
      HandedIsNamed(start);
    }
  }

  /**
   * A chain that hands a function to a method, whether or not it wraps one too,
   * is read as a handed function behind everything else that runs, in order.
   */
  lemma HandedIsNamed(start: Expr)
    requires IsCall(start) && Calls(start) <= MOST_CALLS
    requires !NoWork(Runs(start))
    ensures exists k :: TakesOut(Runs(start), k, Read(start))
  {
    StartRuns(start);
    var k := TakesOneOut(start, MOST_CALLS, [], false);
    assert TakesOut(Runs(start), k, Read(start));
  }

  /**
   * An engine that wraps no function: where its methods are handed exactly one,
   * that one is named behind everything else that runs; where they are handed
   * none, nothing is named and the whole run is listed.
   */
  lemma EngineWrapsNone(start: Expr)
    requires IsCall(start) && Calls(start) <= MOST_CALLS
    requires InnermostInside(start).None?
    ensures NoWork(Runs(start)) ==> Read(start) == Reading(None, Runs(start))
    ensures forall k | 0 <= k < |Runs(start)| && HandsWork(Runs(start)[k])
              && (forall i | 0 <= i < |Runs(start)| && i != k :: !HandsWork(Runs(start)[i]))
              :: TakesOut(Runs(start), k, Read(start))
  {
    StartRuns(start);
    if NoWork(Runs(start)) {
      ReadsTheRun(start, MOST_CALLS, [], false, None);
    } else {
      HandedIsNamed(start);
    }
  }

  /**
   * A last method handed just a function names it, behind what the calls before
   * it were handed and what the engine wraps: the call itself adds nothing.
   */
  lemma LastCallNames(receiver: Expr, text: string, work: Work)
    requires Calls(receiver) < MOST_CALLS
    ensures Read(Method(receiver, [Argument(text, Some(work))]))
         == Reading(Some(work), Methods(receiver) + RunsInside(receiver))
  {
    var arguments := [Argument(text, Some(work))];
    assert |arguments[1..]| == 0;
    assert Taken(arguments, None) == Reading(Some(work), []);
    ConcatEmpty<Item>([], []);
    ReadsTheRun(receiver, MOST_CALLS - 1, [], true, Some(work));
    RunsWithin(receiver, []);
    ConcatEmpty(Methods(receiver), []);
  }

  /** Middleware that is a function of the repository is named in place of the function wrapped. */
  lemma MiddlewareTakenForHandler()
    ensures var handler, audit := Function(1), Argument("audit", Some(2));
            var start := Method(Wrapper("middy", Some(handler)), [audit]);
            InnermostInside(start) == Some(1) && Runs(start) == [Handed(audit)]
            && Read(start) == Reading(Some(2), [])
  {
    LastCallNames(Wrapper("middy", Some(Function(1))), "audit", 2);
    var audit := Argument("audit", Some(2));
    assert |[audit][1..]| == 0;
    assert AllHanded([audit]) == [Handed(audit)];
  }
}
