/** Exactly which expressions the reader answers for: every read of a variable within its limits, and nothing else. */
module EnvironmentReach {
  import opened Wrappers
  import opened EnvironmentRead

  /** An expression without any wrapper, and all the fallbacks around it, outermost first. */
  function Core(e: Expr): (Expr, seq<Fallback>) {
    match e
    case Wrapped(inner) => Core(inner)
    case Either(operator, left, right) =>
      var (core, fallbacks) := Core(left);
      (core, [Fallback(operator, right)] + fallbacks)
    case _ => (e, [])
  }

  function Depth(e: Expr): nat {
    match e
    case Wrapped(inner) => 1 + Depth(inner)
    case Either(_, left, _) => 1 + Depth(left)
    case _ => 0
  }

  predicate FromEnvironment(declaration: Declaration) {
    declaration.Taken? && declaration.source.Some? && Core(declaration.source.value).0.Environment?
  }

  /** The expression is a read of the variable, through the declarations of the trail, however long. */
  predicate Reads(program: Program, e: Expr, found: Found)
    decreases |found.trail|
  {
    var (value, fallbacks) := Core(e);
    if |found.trail| == 0 then NamedIn(value) == Some(found.variable) && found.fallbacks == fallbacks
    else
      && !OnEnvironment(value)
      && DeclaredBy(value) == Some(found.trail[0])
      && var declaration := program(found.trail[0]);
         if FromEnvironment(declaration) then
           && |found.trail| == 1
           && found.variable == declaration.taking.spelled
           && found.fallbacks == fallbacks + DefaultOf(declaration.default)
         else
           && BoundValue(declaration).Some?
           && fallbacks <= found.fallbacks
           && Reads(program, BoundValue(declaration).value,
              Found(found.variable, found.fallbacks[|fallbacks|..], found.trail[1..]))
  }

  /** Nothing along the trail is wrapped deeper, and the trail is no longer, than the reader follows. */
  predicate Near(program: Program, e: Expr, trail: seq<DeclId>, steps: nat)
    decreases steps
  {
    && steps > 0
    && Depth(e) <= MOST_STEPS
    && (|trail| > 0 ==>
        var declaration := program(trail[0]);
        if FromEnvironment(declaration) then Depth(declaration.source.value) <= MOST_STEPS
        else BoundValue(declaration).Some? ==> Near(program, BoundValue(declaration).value, trail[1..], steps - 1))
  }

  lemma {:induction false} StripsToCore(e: Expr, steps: nat)
    ensures Depth(e) <= steps ==> Strip(e, steps) == Core(e)
    ensures Depth(e) > steps ==> Strip(e, steps).0.Wrapped? || Strip(e, steps).0.Either?
    decreases steps
  {
    if steps > 0 {
      match e {
        case Wrapped(inner) => StripsToCore(inner, steps - 1);
        case Either(_, left, _) => StripsToCore(left, steps - 1);
        case _ =>
      }
    }
  }

  lemma TakesIfNear(declaration: Declaration)
    ensures TakesFromEnvironment(declaration)
       <==> FromEnvironment(declaration) && Depth(declaration.source.value) <= MOST_STEPS
  {
    if declaration.Taken? && declaration.source.Some? {
      StripsToCore(declaration.source.value, MOST_STEPS);
    }
  }

  /** What the reader finds reads so. */
  lemma {:induction false} FoundReads(program: Program, e: Expr, steps: nat)
    requires Follow(program, e, steps).Some?
    ensures Reads(program, e, Follow(program, e, steps).value)
    ensures Near(program, e, Follow(program, e, steps).value.trail, steps)
    decreases steps
  {
    StripsToCore(e, MOST_STEPS);
    var found := Follow(program, e, steps).value;
    var (value, fallbacks) := Core(e);
    if !OnEnvironment(value) {
      var declaration := program(DeclaredBy(value).value);
      TakesIfNear(declaration);
      if !TakesFromEnvironment(declaration) {
        var bound := BoundValue(declaration).value;
        FoundReads(program, bound, steps - 1);
        var rest := Follow(program, bound, steps - 1).value;
        assert found.fallbacks[|fallbacks|..] == rest.fallbacks && found.trail[1..] == rest.trail;
      }
    }
  }

  /** What reads so within the limits is found. */
  lemma {:induction false} ReadsFound(program: Program, e: Expr, found: Found, steps: nat)
    requires Reads(program, e, found) && Near(program, e, found.trail, steps)
    ensures Follow(program, e, steps) == Some(found)
    decreases steps
  {
    StripsToCore(e, MOST_STEPS);
    var (value, fallbacks) := Core(e);
    if |found.trail| > 0 {
      var declaration := program(found.trail[0]);
      TakesIfNear(declaration);
      if FromEnvironment(declaration) {
        assert found.trail == [found.trail[0]];
      } else {
        var bound := BoundValue(declaration).value;
        var rest := Found(found.variable, found.fallbacks[|fallbacks|..], found.trail[1..]);
        ReadsFound(program, bound, rest, steps - 1);
        assert found.fallbacks == fallbacks + rest.fallbacks && found.trail == [found.trail[0]] + rest.trail;
      }
    }
  }

  /** The reader answers exactly the reads of a variable within its limits. */
  lemma FoundExactly(program: Program, e: Expr, found: Found)
    ensures Follow(program, e, MOST_STEPS) == Some(found)
       <==> Reads(program, e, found) && Near(program, e, found.trail, MOST_STEPS)
  {
    if Follow(program, e, MOST_STEPS) == Some(found) {
      FoundReads(program, e, MOST_STEPS);
    }
    if Reads(program, e, found) && Near(program, e, found.trail, MOST_STEPS) {
      ReadsFound(program, e, found, MOST_STEPS);
    }
  }
}
