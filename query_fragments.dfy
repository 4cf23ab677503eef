/**
 * `QueryFragments`: the mutable builder a query method fills in before the statement is built.
 * A Java `null` field is `None`; a `Collection` is a sequence in its iteration order.
 */
module Fragments {
  import opened Wrappers
  import opened Cypher
  import opened Mapping
  import opened ReturnTuples

  class QueryFragments {
    var matchOn: seq<PatternElement>
    var condition: Option<Condition>
    var returnExpressions: seq<Expression>
    var orderBy: Option<seq<SortItem>>
    var limit: Option<int>
    var skip: Option<int>
    var returnTuple: Option<ReturnTuple>
    var scalarValueReturn: bool
    var renderConstantsAsParameters: bool
    var deleteExpression: Option<Expression>
    /** Set for backward keyset scrolling; the caller then reverses the fetched rows. */
    var requiresReverseSort: bool
    var projectingPropertyFilter: Option<RelaxedPropertyPath -> bool>

    /** The field initialisers: empty lists, `false` flags, everything else `null`. */
    constructor()
      ensures matchOn == [] && returnExpressions == []
      ensures condition.None? && orderBy.None? && limit.None? && skip.None?
      ensures returnTuple.None? && deleteExpression.None? && projectingPropertyFilter.None?
      ensures !scalarValueReturn && !renderConstantsAsParameters && !requiresReverseSort
    {
      matchOn := [];
      condition := None;
      returnExpressions := [];
      orderBy := None;
      limit := None;
      skip := None;
      returnTuple := None;
      scalarValueReturn := false;
      renderConstantsAsParameters := false;
      deleteExpression := None;
      requiresReverseSort := false;
      projectingPropertyFilter := None;
    }

    method AddMatchOn(pattern: PatternElement)
      modifies this`matchOn
      ensures matchOn == old(matchOn) + [pattern]
    {
      matchOn := matchOn + [pattern];
    }

    method SetMatchOn(patterns: seq<PatternElement>)
      modifies this`matchOn
      ensures matchOn == patterns
    {
      matchOn := patterns;
    }

    /** A `null` condition is replaced by the empty condition, so a set condition is never `null`. */
    method SetCondition(c: Option<Condition>)
      modifies this`condition
      ensures condition.Some?
      ensures c.Some? ==> condition == c
      ensures c.None? ==> condition == Some(NoCondition)
    {
      condition := Some(match c case Some(given) => given case None => NoCondition);
    }

    method SetReturnExpressions(expressions: seq<Expression>)
      modifies this`returnExpressions
      ensures returnExpressions == expressions
    {
      returnExpressions := expressions;
    }

    method SetDeleteExpression(expression: Option<Expression>)
      modifies this`deleteExpression
      ensures deleteExpression == expression
    {
      deleteExpression := expression;
    }

    /** Exactly one return expression, and whether it is a scalar value. */
    method SetReturnExpression(returnExpression: Expression, isScalarValue: bool)
      modifies this`returnExpressions, this`scalarValueReturn
      ensures returnExpressions == [returnExpression] && scalarValueReturn == isScalarValue
    {
      returnExpressions := [returnExpression];
      scalarValueReturn := isScalarValue;
    }

    method SetProjectingPropertyFilter(filter: Option<RelaxedPropertyPath -> bool>)
      modifies this`projectingPropertyFilter
      ensures projectingPropertyFilter == filter
    {
      projectingPropertyFilter := filter;
    }

    /**
     * `includeField`: a field is projected when the projecting filter, if any, accepts it and the
     * return tuple, if any, includes it; an absent one restricts nothing.
     */
    function IncludeField(fieldName: RelaxedPropertyPath): (b: bool)
      reads this
      ensures projectingPropertyFilter.Some? && !projectingPropertyFilter.value(fieldName) ==> !b
      ensures returnTuple.Some? && !returnTuple.value.Include(fieldName) ==> !b
      ensures returnTuple.None? ==> (b <==> projectingPropertyFilter.None? || projectingPropertyFilter.value(fieldName))
      ensures projectingPropertyFilter.None? ==> (b <==> returnTuple.None? || returnTuple.value.Include(fieldName))
      ensures ((projectingPropertyFilter.None? || projectingPropertyFilter.value(fieldName))
               && (returnTuple.None? || returnTuple.value.Include(fieldName))) ==> b
    {
      (projectingPropertyFilter.None? || projectingPropertyFilter.value(fieldName))
      && (returnTuple.None? || returnTuple.value.Include(fieldName))
    }

    method SetOrderBy(items: Option<seq<SortItem>>)
      modifies this`orderBy
      ensures orderBy == items
    {
      orderBy := items;
    }

    method SetLimit(n: Option<int>)
      modifies this`limit
      ensures limit == n
    {
      limit := n;
    }

    method SetSkip(n: Option<int>)
      modifies this`skip
      ensures skip == n
    {
      skip := n;
    }

    /** The return clause is to be derived from `nodeDescription`, keeping the included paths. */
    method SetReturnBasedOn(nodeDescription: NodeDescription, includedProperties: seq<ProjectedPath>, isDistinct: bool)
      modifies this`returnTuple
      ensures returnTuple == Some(NewReturnTuple(nodeDescription, includedProperties, isDistinct))
    {
      returnTuple := Some(NewReturnTuple(nodeDescription, includedProperties, isDistinct));
    }

    method SetRequiresReverseSort(b: bool)
      modifies this`requiresReverseSort
      ensures requiresReverseSort == b
    {
      requiresReverseSort := b;
    }

    method SetRenderConstantsAsParameters(b: bool)
      modifies this`renderConstantsAsParameters
      ensures renderConstantsAsParameters == b
    {
      renderConstantsAsParameters := b;
    }
  }

  /**
   * After `setReturnBasedOn` and with no projecting filter, a field is projected exactly when one
   * of the included paths names it (renamed at its first segment when that is an annotated
   * property) with the field's type.
   */
  lemma IncludeFieldReturnBasedOn(q: QueryFragments, nodeDescription: NodeDescription, included: seq<ProjectedPath>,
                                  isDistinct: bool, fieldName: RelaxedPropertyPath)
    requires q.projectingPropertyFilter.None?
    requires q.returnTuple == Some(NewReturnTuple(nodeDescription, included, isDistinct))
    ensures var t := q.returnTuple.value;
      var stored := if t.AnnotatedName(fieldName).Some? then fieldName.ToDotPathWith(t.AnnotatedName(fieldName).value)
                    else fieldName.ToDotPath();
      q.IncludeField(fieldName) <==> exists p :: p in included && p.dotPath == stored && p.typ == fieldName.typ
  {
    var t := q.returnTuple.value;
    var stored := if t.AnnotatedName(fieldName).Some? then fieldName.ToDotPathWith(t.AnnotatedName(fieldName).value)
                  else fieldName.ToDotPath();
    if q.IncludeField(fieldName) {
      assert (stored, fieldName.typ) in t.filteredProperties;
    }
  }
}
