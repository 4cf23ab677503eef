/**
 * `StatementBuilderHelper`: assembles the fragments into one statement, reversing the sort items
 * when backward scrolling asks for it.
 */
module StatementBuilding {
  import opened Wrappers
  import opened QueryErrors
  import opened Cypher
  import opened Mapping
  import opened ReturnTuples
  import opened Fragments

  // ---------------------------------------------------------------------------------------------
  // Reversing sort items
  // ---------------------------------------------------------------------------------------------

  /** The item sorting the other way: descending for ascending or unset, ascending for descending. */
  function Reversed(item: SortItem): SortItem
  {
    SortItem(item.expression, if item.direction == DESC then ASC else DESC)
  }

  function ReverseAll(items: seq<SortItem>): (r: seq<SortItem>)
    ensures |r| == |items|
  {
    seq(|items|, i requires 0 <= i < |items| => Reversed(items[i]))
  }

  /**
   * Reversal keeps every expression and position, always sets a direction, and swaps descending
   * with not descending.
   */
  lemma ReverseAllFlips(items: seq<SortItem>)
    ensures forall i :: 0 <= i < |items| ==>
      && ReverseAll(items)[i].expression == items[i].expression
      && ReverseAll(items)[i].direction != UNDEFINED
      && (ReverseAll(items)[i].direction == DESC <==> items[i].direction != DESC)
  {
  }

  /**
   * Reversing twice restores every item, except that an unset direction comes back as its
   * explicit default, ascending.
   */
  lemma ReverseAllTwice(items: seq<SortItem>)
    ensures forall i :: 0 <= i < |items| ==>
      ReverseAll(ReverseAll(items))[i]
        == SortItem(items[i].expression, if items[i].direction == UNDEFINED then ASC else items[i].direction)
    ensures (forall i :: 0 <= i < |items| ==> items[i].direction != UNDEFINED) ==> ReverseAll(ReverseAll(items)) == items
  {
  }

  /**
   * `reverse`: a visitor keeps the first expression and the first direction it sees, the latter
   * already flipped; an item without a direction gets DESC.
   */
  method Reverse(sortItem: SortItem) returns (r: SortItem)
    ensures r == Reversed(sortItem)
  {
    var segments := Visit(sortItem);
    var sortedExpression: Option<Expression> := None;
    var sortDirection: Option<SortDirection> := None;
    var expressionPart := VisitExpression(sortItem.expression);
    assert segments[1] == ExpressionSegment(sortItem.expression);
    for i := 0 to |segments|
      invariant sortedExpression == if i <= 1 then None else Some(sortItem.expression)
      invariant sortDirection.Some? ==> sortItem.direction != UNDEFINED && i == |segments|
                                        && sortDirection == Some(if sortItem.direction == DESC then ASC else DESC)
      invariant sortItem.direction != UNDEFINED && i == |segments| ==> sortDirection.Some?
    {
      match segments[i]
      case DirectionSegment(direction) =>
        assert i == |segments| - 1 && direction == sortItem.direction;
        if sortDirection.None? {
          sortDirection := Some(if direction == UNDEFINED || direction == ASC then DESC else ASC);
        }
      case ExpressionSegment(expression) =>
        if sortedExpression.None? {
          sortedExpression := Some(expression);
        }
      case ItemSegment =>
    }
    if sortDirection.None? {
      sortDirection := Some(DESC);
    }
    r := SortItem(sortedExpression.value, sortDirection.value);
  }

  // ---------------------------------------------------------------------------------------------
  // What the helper reads off the fragments
  // ---------------------------------------------------------------------------------------------

  /**
   * `createReturnStatementForMatch(nodeDescription, includeField)`, reduced to the node's fields
   * that `includeField` keeps, in their order.
   */
  function Projection(fields: seq<(RelaxedPropertyPath, Expression)>, q: QueryFragments): (r: seq<Expression>)
    reads q
    ensures |r| <= |fields|
    ensures forall e :: e in r <==> exists i :: 0 <= i < |fields| && fields[i].1 == e && q.IncludeField(fields[i].0)
  {
    if fields == [] then []
    else
      var rest := Projection(fields[1..], q);
      assert forall i :: 0 < i < |fields| ==> fields[i] == fields[1..][i - 1];
      (if q.IncludeField(fields[0].0) then [fields[0].1] else []) + rest
  }

  /**
   * `getReturnExpressions`: the explicit expressions when there are any, otherwise the projection
   * of the return tuple's node; with neither, Java dereferences a `null` tuple.
   */
  function ReturnExpressionsOf(q: QueryFragments): (r: Result<seq<Expression>, Error>)
    reads q
    ensures |q.returnExpressions| > 0 ==> r == Success(q.returnExpressions)
    ensures |q.returnExpressions| == 0 ==> (r.Failure? <==> q.returnTuple.None?)
    ensures r.Failure? ==> r.error == MissingReturnTuple
    ensures r.Success? && |q.returnExpressions| == 0 ==>
      var fields := q.returnTuple.value.GetNodeDescription().fields;
      forall e :: e in r.value <==> exists i :: 0 <= i < |fields| && fields[i].1 == e && q.IncludeField(fields[i].0)
  {
    if |q.returnExpressions| > 0 then Success(q.returnExpressions)
    else match q.returnTuple
      case None => Failure(MissingReturnTuple)
      case Some(t) => Success(Projection(t.GetNodeDescription().fields, q))
  }

  /**
   * `isDistinctReturn`: distinct exactly when there are no explicit expressions and the return
   * tuple asks for it; the `&&` only looks at the tuple when there are no explicit expressions.
   */
  function IsDistinctReturnOf(q: QueryFragments): (r: Result<bool, Error>)
    reads q
    ensures r == Success(true) <==> |q.returnExpressions| == 0 && q.returnTuple.Some? && q.returnTuple.value.IsDistinct()
    ensures r.Failure? <==> |q.returnExpressions| == 0 && q.returnTuple.None?
    ensures r.Failure? ==> r.error == MissingReturnTuple
  {
    if |q.returnExpressions| > 0 then Success(false)
    else match q.returnTuple
      case None => Failure(MissingReturnTuple)
      case Some(t) => Success(t.IsDistinct())
  }

  /** `getOrderBy`: none when unset, the items as stored, or each item reversed. */
  function OrderByOf(q: QueryFragments): seq<SortItem>
    reads q
  {
    match q.orderBy
    case None => []
    case Some(items) => if q.requiresReverseSort then ReverseAll(items) else items
  }

  /** `toStatement`, or the exception it throws. */
  function StatementOf(q: QueryFragments): Result<Statement, Error>
    reads q
  {
    if |q.matchOn| == 0 then Failure(EmptyMatch)
    else
      match IsDistinctReturnOf(q)
      case Failure(e) => Failure(e)
      case Success(distinct) =>
        match ReturnExpressionsOf(q)
        case Failure(e) => Failure(e)
        case Success(returning) =>
          Success(Statement(q.matchOn, q.condition, q.deleteExpression, distinct, returning,
                            OrderByOf(q), q.skip, q.limit, q.renderConstantsAsParameters))
  }

  /**
   * Building fails exactly when there is no pattern to match (first) or there is neither an
   * explicit return expression nor a return tuple.
   */
  lemma StatementOfFailures(q: QueryFragments)
    ensures StatementOf(q).Failure? <==> |q.matchOn| == 0 || (|q.returnExpressions| == 0 && q.returnTuple.None?)
    ensures |q.matchOn| == 0 ==> StatementOf(q) == Failure(EmptyMatch)
    ensures |q.matchOn| > 0 && StatementOf(q).Failure? ==> StatementOf(q) == Failure(MissingReturnTuple)
  {
  }

  /**
   * A built statement matches every pattern in order, the first opening the clause, and carries
   * the fragments' condition, delete expression, skip, limit and rendering flag unchanged.
   * Explicit return expressions win over the return tuple and are never distinct; otherwise the
   * tuple's node is projected and the tuple decides distinctness.
   */
  lemma StatementOfContents(q: QueryFragments)
    requires StatementOf(q).Success?
    ensures var s := StatementOf(q).value;
      && s.matches == q.matchOn && |s.matches| > 0 && s.matches[0] == q.matchOn[0]
      && s.where == q.condition && s.delete == q.deleteExpression
      && s.skip == q.skip && s.limit == q.limit && s.renderConstantsAsParameters == q.renderConstantsAsParameters
      && (|q.returnExpressions| > 0 ==> s.returning == q.returnExpressions && !s.distinct)
      && (|q.returnExpressions| == 0 ==>
            s.returning == Projection(q.returnTuple.value.GetNodeDescription().fields, q)
            && s.distinct == q.returnTuple.value.IsDistinct())
  {
  }

  /**
   * The order-by of a built statement: nothing when unset, the stored items, or the stored items
   * each reversed when the fragments require the reverse sort.
   */
  lemma StatementOfOrderBy(q: QueryFragments)
    requires StatementOf(q).Success?
    ensures var s := StatementOf(q).value;
      && (q.orderBy.None? ==> s.orderBy == [])
      && (q.orderBy.Some? && !q.requiresReverseSort ==> s.orderBy == q.orderBy.value)
      && (q.orderBy.Some? && q.requiresReverseSort ==>
            |s.orderBy| == |q.orderBy.value|
            && forall i :: 0 <= i < |s.orderBy| ==> s.orderBy[i] == Reversed(q.orderBy.value[i]))
  {
  }

  // ---------------------------------------------------------------------------------------------
  // The helper
  // ---------------------------------------------------------------------------------------------

  class StatementBuilderHelper {
    const queryFragments: QueryFragments

    constructor(queryFragments: QueryFragments)
      ensures this.queryFragments == queryFragments
    {
      this.queryFragments := queryFragments;
    }

    /** `getOrderBy`, mapping `reverse` over the stored items when reversing. */
    method GetOrderBy() returns (r: seq<SortItem>)
      ensures r == OrderByOf(queryFragments)
    {
      var q := queryFragments;
      if q.orderBy.None? {
        return [];
      } else if !q.requiresReverseSort {
        return q.orderBy.value;
      }
      var items := q.orderBy.value;
      r := [];
      for i := 0 to |items|
        invariant |r| == i
        invariant forall j :: 0 <= j < i ==> r[j] == Reversed(items[j])
      {
        var reversed := Reverse(items[i]);
        r := r + [reversed];
      }
      assert r == ReverseAll(items);
    }

    /** `toStatement`: one match clause over every pattern, then where, delete, return, order, skip, limit. */
    method ToStatement() returns (r: Result<Statement, Error>)
      ensures r == StatementOf(queryFragments)
    {
      var q := queryFragments;
      var match_: Option<seq<PatternElement>> := None;
      for i := 0 to |q.matchOn|
        invariant match_ == if i == 0 then None else Some(q.matchOn[..i])
      {
        assert q.matchOn[..i + 1] == q.matchOn[..i] + [q.matchOn[i]];
        if match_.None? {
          assert i == 0 && [q.matchOn[0]] == q.matchOn[..1];
          match_ := Some([q.matchOn[0]]);
        } else {
          match_ := Some(match_.value + [q.matchOn[i]]);
        }
      }
      if match_.None? {
        return Failure(EmptyMatch);
      }
      assert q.matchOn[..|q.matchOn|] == q.matchOn;
      var distinct := IsDistinctReturnOf(q);
      if distinct.Failure? {
        return Failure(distinct.error);
      }
      var returning := ReturnExpressionsOf(q);
      if returning.Failure? {
        return Failure(returning.error);
      }
      var orderBy := GetOrderBy();
      r := Success(Statement(match_.value, q.condition, q.deleteExpression, distinct.value, returning.value,
                             orderBy, q.skip, q.limit, q.renderConstantsAsParameters));
    }
  }

  /** `QueryFragments.toStatement`: a new helper over the fragments builds the statement. */
  method QueryFragmentsToStatement(q: QueryFragments) returns (r: Result<Statement, Error>)
    ensures r == StatementOf(q)
  {
    var helper := new StatementBuilderHelper(q);
    r := helper.ToStatement();
  }

  /** Fragments with a return expression but no pattern fail with `EmptyMatch`. */
  method EmptyMatchFails(e: Expression) returns (r: Result<Statement, Error>)
    ensures r == Failure(EmptyMatch)
  {
    var q := new QueryFragments();
    q.SetReturnExpression(e, false);
    r := QueryFragmentsToStatement(q);
  }
}
