/**
 * Reading an expression back to the environment variable behind it, through
 * wrappers, declarations and destructurings (`unwrapped`, `destructuredVariable`,
 * `boundValue` and `environmentReadOf` in `environment.ts`).
 */
module EnvironmentRead {
  import opened Wrappers
  import opened Seqs

  type DeclId = nat

  /** What decides that a fallback stands in: `??`, `||`, or a default in a destructuring. */
  datatype Operator = Nullish | Falsy | Missing

  datatype Key = Literal(text: string) | Computed

  /**
   * An expression as the reader tells its shapes apart. A name and a property
   * carry what the type checker says declared them.
   */
  datatype Expr =
    | Environment
    | Wrapped(inner: Expr)
    | Either(operator: Operator, left: Expr, right: Expr)
    | Property(owner: Expr, name: string, declared: Option<DeclId>)
    | Element(owner: Expr, key: Key)
    | Name(declared: Option<DeclId>)
    | Other(id: nat)

  /** What an element of a destructuring is spelled as taking, and the property it takes where that is fixed. */
  datatype Taking = Taking(spelled: string, property: Option<string>)

  /**
   * What a name or a property was declared by: an element of a destructuring, a
   * variable, a property of a record, or anything else. `fixed` says that nothing
   * can be assigned to it once it is made; of an element and a property the reader
   * does not ask.
   */
  datatype Declaration =
    | Taken(fixed: bool, source: Option<Expr>, taking: Taking, default: Option<Expr>)
    | Variable(fixed: bool, initializer: Option<Expr>)
    | Assigned(fixed: bool, initializer: Option<Expr>)
    | Unread

  type Program = DeclId -> Declaration

  /** How many wrappers, and how many bindings, are followed. */
  const MOST_STEPS := 8

  /** A fallback met on the way, with what makes it stand in. */
  datatype Fallback = Fallback(operator: Operator, value: Expr)

  datatype EnvironmentRead = EnvironmentRead(variable: string, otherwise: Option<Expr>)

  // ---- the reading ----

  /** An expression without the wrappers that leave it alone, so many steps at most, and the fallbacks met. */
  function Strip(e: Expr, steps: nat): (Expr, seq<Fallback>) {
    if steps == 0 then (e, [])
    else match e
      case Wrapped(inner) => Strip(inner, steps - 1)
      case Either(operator, left, right) =>
        var (core, fallbacks) := Strip(left, steps - 1);
        (core, [Fallback(operator, right)] + fallbacks)
      case _ => (e, [])
  }

  function DefaultOf(default: Option<Expr>): seq<Fallback> {
    if default.Some? then [Fallback(Missing, default.value)] else []
  }

  /** The declaration takes its value out of the environment. */
  predicate TakesFromEnvironment(declaration: Declaration) {
    declaration.Taken? && declaration.source.Some? && Strip(declaration.source.value, MOST_STEPS).0.Environment?
  }

  /** What a name or a property was declared by. */
  function DeclaredBy(e: Expr): Option<DeclId> {
    if e.Name? || e.Property? then e.declared else None
  }

  function BoundValue(declaration: Declaration): Option<Expr> {
    match declaration
    case Variable(fixed, initializer) => if fixed then initializer else None
    case Assigned(_, initializer) => initializer
    case _ => None
  }

  /** A variable found, the fallbacks in front of it outermost first, and the declarations followed to it. */
  datatype Found = Found(variable: string, fallbacks: seq<Fallback>, trail: seq<DeclId>)

  /** The variable a bare expression names in the environment itself. */
  function NamedIn(e: Expr): Option<string> {
    match e
    case Property(owner, name, _) => if owner.Environment? then Some(name) else None
    case Element(owner, key) => if owner.Environment? && key.Literal? then Some(key.text) else None
    case _ => None
  }

  predicate OnEnvironment(e: Expr) {
    (e.Property? || e.Element?) && e.owner.Environment?
  }

  function Follow(program: Program, e: Expr, steps: nat): Option<Found>
    decreases steps
  {
    if steps == 0 then None
    else
      var (value, fallbacks) := Strip(e, MOST_STEPS);
      if OnEnvironment(value) then
        if NamedIn(value).Some? then Some(Found(NamedIn(value).value, fallbacks, [])) else None
      else
        var declared := DeclaredBy(value);
        if declared.None? then None
        else
          var declaration := program(declared.value);
          if TakesFromEnvironment(declaration) then
            Some(Found(declaration.taking.spelled, fallbacks + DefaultOf(declaration.default), [declared.value]))
          else
            var bound := BoundValue(declaration);
            if bound.None? then None
            else
              var rest := Follow(program, bound.value, steps - 1);
              if rest.None? then None
              else Some(Found(rest.value.variable, fallbacks + rest.value.fallbacks,
                  [declared.value] + rest.value.trail))
  }

  function ReadOf(variable: string, fallbacks: seq<Fallback>): EnvironmentRead {
    EnvironmentRead(variable, if |fallbacks| == 1 then Some(fallbacks[0].value) else None)
  }

  function ReadFound(found: Option<Found>): Option<EnvironmentRead> {
    if found.None? then None else Some(ReadOf(found.value.variable, found.value.fallbacks))
  }

  method Unwrapped(node: Expr, met: seq<Fallback>) returns (current: Expr, fallbacks: seq<Fallback>)
    ensures current == Strip(node, MOST_STEPS).0
    ensures fallbacks == met + Strip(node, MOST_STEPS).1
  {
    current, fallbacks := node, met;
    for step := 0 to MOST_STEPS
      invariant Strip(current, MOST_STEPS - step).0 == Strip(node, MOST_STEPS).0
      invariant fallbacks + Strip(current, MOST_STEPS - step).1 == met + Strip(node, MOST_STEPS).1
    {
      if current.Wrapped? {
        current := current.inner;
        continue;
      }
      if current.Either? {
        Associates(fallbacks, [Fallback(current.operator, current.right)],
            Strip(current.left, MOST_STEPS - step - 1).1);
        fallbacks := fallbacks + [Fallback(current.operator, current.right)];
        current := current.left;
        continue;
      }
      ConcatEmpty(fallbacks, []);
      return;
    }
    ConcatEmpty(fallbacks, []);
  }

  /** The variable a declaration takes out of the environment, with its default among the fallbacks. */
  method DestructuredVariable(declaration: Declaration, met: seq<Fallback>)
    returns (variable: Option<string>, fallbacks: seq<Fallback>)
    ensures variable == if TakesFromEnvironment(declaration) then Some(declaration.taking.spelled) else None
    ensures fallbacks == if TakesFromEnvironment(declaration) then met + DefaultOf(declaration.default) else met
  {
    variable, fallbacks := None, met;
    if !declaration.Taken? || declaration.source.None? {
      return;
    }
    var source, _ := Unwrapped(declaration.source.value, []);
    if !source.Environment? {
      return;
    }
    if declaration.default.Some? {
      fallbacks := fallbacks + [Fallback(Missing, declaration.default.value)];
    }
    variable := Some(declaration.taking.spelled);
  }

  /** What reading on comes to, with the fallbacks already met. */
  function ReadAfter(met: seq<Fallback>, found: Option<Found>): Option<EnvironmentRead> {
    if found.None? then None else Some(ReadOf(found.value.variable, met + found.value.fallbacks))
  }

  method EnvironmentReadOf(program: Program, expression: Expr) returns (read: Option<EnvironmentRead>)
    ensures read == ReadFound(Follow(program, expression, MOST_STEPS))
  {
    var fallbacks: seq<Fallback> := [];
    var current := expression;
    for step := 0 to MOST_STEPS
      invariant ReadAfter(fallbacks, Follow(program, current, MOST_STEPS - step))
             == ReadFound(Follow(program, expression, MOST_STEPS))
    {
      ghost var before, at := fallbacks, current;
      var value;
      value, fallbacks := Unwrapped(current, fallbacks);
      if value.Property? && value.owner.Environment? {
        return Some(ReadOf(value.name, fallbacks));
      }
      if value.Element? && value.owner.Environment? {
        return if value.key.Literal? then Some(ReadOf(value.key.text, fallbacks)) else None;
      }
      var declared := DeclaredBy(value);
      if declared.None? {
        return None;
      }
      var destructured;
      FollowMet(program, at, MOST_STEPS - step, before);
      destructured, fallbacks := DestructuredVariable(program(declared.value), fallbacks);
      if destructured.Some? {
        return Some(ReadOf(destructured.value, fallbacks));
      }
      var bound := BoundValue(program(declared.value));
      if bound.None? {
        return None;
      }
      current := bound.value;
    }
    return None;
  }

  /** What one step's declaration comes to, with every fallback met up to it. */
  function AfterStep(
      program: Program, declaration: Declaration, met: seq<Fallback>, steps: nat): Option<EnvironmentRead> {
    if TakesFromEnvironment(declaration)
    then Some(ReadOf(declaration.taking.spelled, met + DefaultOf(declaration.default)))
    else if BoundValue(declaration).None? then None
    else ReadAfter(met, Follow(program, BoundValue(declaration).value, steps))
  }

  lemma FollowMet(program: Program, e: Expr, steps: nat, met: seq<Fallback>)
    requires steps > 0 && !OnEnvironment(Strip(e, MOST_STEPS).0) && DeclaredBy(Strip(e, MOST_STEPS).0).Some?
    ensures ReadAfter(met, Follow(program, e, steps))
         == AfterStep(program, program(DeclaredBy(Strip(e, MOST_STEPS).0).value), met + Strip(e, MOST_STEPS).1,
             steps - 1)
  {
    var (value, fallbacks) := Strip(e, MOST_STEPS);
    var declaration := program(DeclaredBy(value).value);
    if TakesFromEnvironment(declaration) {
      Associates(met, fallbacks, DefaultOf(declaration.default));
    } else if BoundValue(declaration).Some? {
      var rest := Follow(program, BoundValue(declaration).value, steps - 1);
      if rest.Some? {
        Associates(met, fallbacks, rest.value.fallbacks);
      }
    }
  }
}
