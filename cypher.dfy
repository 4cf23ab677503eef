/**
 * Abstract stand-ins for the Cypher-DSL nodes the query layer builds: expressions, conditions,
 * sort items, pattern elements and statements, together with an evaluator of conditions over a row.
 */
module Cypher {
  import opened Wrappers

  /** A value bound as an anonymous parameter, ordered as the database orders it. */
  type Value = int

  datatype Expression =
    /** `property(container, names...)` and `container.property(name)` */
    | Property(container: string, names: seq<string>)
    /** `Cypher.toLower(argument)` */
    | ToLower(argument: Expression)
    /** An expression built elsewhere (an entity's id expression, a return item), known by its text. */
    | Opaque(text: string)

  datatype Comparator = Gt | Lt | Gte | Lte

  datatype Condition =
    /** `Cypher.noCondition()`: renders as no filter; the identity of `and` and `or`. */
    | NoCondition
    | Cmp(op: Comparator, left: Expression, right: Value)
    | Eq(left: Expression, right: Value)
    | And(lhs: Condition, rhs: Condition)
    | Or(lhs: Condition, rhs: Condition)

  /** `a.and(b)`: an empty operand disappears. */
  function AndC(a: Condition, b: Condition): (c: Condition)
    ensures c == NoCondition <==> a == NoCondition && b == NoCondition
  {
    if a == NoCondition then b else if b == NoCondition then a else And(a, b)
  }

  /** `a.or(b)`: an empty operand disappears. */
  function OrC(a: Condition, b: Condition): (c: Condition)
    ensures c == NoCondition <==> a == NoCondition && b == NoCondition
  {
    if a == NoCondition then b else if b == NoCondition then a else Or(a, b)
  }

  /** A candidate row: the value every expression takes on it. */
  type Row = Expression -> Value

  predicate Compare(op: Comparator, x: Value, y: Value) {
    match op
    case Gt => x > y
    case Lt => x < y
    case Gte => x >= y
    case Lte => x <= y
  }

  /** Whether a row passes a `WHERE` built from `c`; the empty condition lets every row through. */
  predicate Holds(c: Condition, row: Row) {
    match c
    case NoCondition => true
    case Cmp(op, e, v) => Compare(op, row(e), v)
    case Eq(e, v) => row(e) == v
    case And(l, r) => Holds(l, row) && Holds(r, row)
    case Or(l, r) => Holds(l, row) || Holds(r, row)
  }

  lemma AndCHolds(a: Condition, b: Condition, row: Row)
    ensures Holds(AndC(a, b), row) == (Holds(a, row) && Holds(b, row))
  {
  }

  lemma OrCHolds(a: Condition, b: Condition, row: Row)
    requires a != NoCondition && b != NoCondition
    ensures Holds(OrC(a, b), row) == (Holds(a, row) || Holds(b, row))
  {
  }

  /** `SortItem.Direction`: `Cypher.sort(e)` leaves it UNDEFINED, `descending()` makes it DESC. */
  datatype SortDirection = ASC | DESC | UNDEFINED

  datatype SortItem = SortItem(expression: Expression, direction: SortDirection)

  /**
   * What a visitor passed to `SortItem.accept` sees, in order: the item itself, its expression
   * and that expression's sub-expressions (pre-order), then the direction when one was set.
   */
  datatype Segment = ItemSegment | ExpressionSegment(expression: Expression) | DirectionSegment(direction: SortDirection)

  function VisitExpression(e: Expression): (s: seq<Segment>)
    ensures |s| >= 1 && s[0] == ExpressionSegment(e)
    ensures forall i :: 0 <= i < |s| ==> !s[i].DirectionSegment?
  {
    match e
    case ToLower(a) => [ExpressionSegment(e)] + VisitExpression(a)
    case _ => [ExpressionSegment(e)]
  }

  function Visit(item: SortItem): seq<Segment> {
    [ItemSegment] + VisitExpression(item.expression)
    + (if item.direction != UNDEFINED then [DirectionSegment(item.direction)] else [])
  }

  datatype PatternElement = PatternElement(text: string)

  /**
   * A built statement: `MATCH matches WHERE where [DETACH DELETE delete]
   * RETURN [DISTINCT] returning ORDER BY orderBy [SKIP skip] [LIMIT limit]`, with the rendering flag.
   * `matches[0]` is the pattern that opens the clause.
   */
  datatype Statement = Statement(
    matches: seq<PatternElement>,
    where: Option<Condition>,
    delete: Option<Expression>,
    distinct: bool,
    returning: seq<Expression>,
    orderBy: seq<SortItem>,
    skip: Option<int>,
    limit: Option<int>,
    renderConstantsAsParameters: bool)
}
