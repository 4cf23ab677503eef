/**
 * `CypherAdapterUtils`: turning Spring Data sort orders into Cypher sort items, and a keyset
 * cursor plus a sort into the condition that selects the next (or previous) page.
 */
module CypherAdapter {
  import opened Wrappers
  import opened QueryErrors
  import opened Cypher
  import opened SpringData
  import opened Mapping

  // ---------------------------------------------------------------------------------------------
  // Sort items
  // ---------------------------------------------------------------------------------------------

  /**
   * `resolveRootSymbolicName`: an undotted path, or one whose first segment is a graph property,
   * sorts on the typed root; otherwise the first segment names a variable bound elsewhere.
   */
  function ResolveRootSymbolicName(nd: NodeDescription, domainProperty: string, propertyIsQualifiedOrComposite: bool): (r: Result<string, Error>)
    ensures !propertyIsQualifiedOrComposite ==> r == Success(nd.rootName)
    ensures propertyIsQualifiedOrComposite ==> (r ==
      if OnlyDots(domainProperty) then Failure(SegmentIndexOutOfBounds(domainProperty))
      else if PrefixBeforeDot(domainProperty) in nd.properties then Success(nd.rootName)
      else Success(PrefixBeforeDot(domainProperty)))
  {
    if !propertyIsQualifiedOrComposite then Success(nd.rootName)
    else
      FirstSegmentIsPrefix(domainProperty);
      match FirstSegment(domainProperty)
      case None => Failure(SegmentIndexOutOfBounds(domainProperty))
      case Some(first) => if first !in nd.properties then Success(first) else Success(nd.rootName)
  }

  /** `resolveGraphProperty`: the full path first, then its first segment, else an error. */
  function ResolveGraphProperty(nd: NodeDescription, domainProperty: string): (r: Result<GraphProperty, Error>)
    ensures domainProperty in nd.properties ==> r == Success(nd.properties[domainProperty])
    ensures domainProperty !in nd.properties ==> (r ==
      if OnlyDots(domainProperty) then Failure(SegmentIndexOutOfBounds(domainProperty))
      else if PrefixBeforeDot(domainProperty) in nd.properties then Success(nd.properties[PrefixBeforeDot(domainProperty)])
      else Failure(UnknownSortProperty(domainProperty)))
  {
    if domainProperty in nd.properties then Success(nd.properties[domainProperty])
    else
      FirstSegmentIsPrefix(domainProperty);
      match FirstSegment(domainProperty)
      case None => Failure(SegmentIndexOutOfBounds(domainProperty))
      case Some(prefix) =>
        if prefix in nd.properties then Success(nd.properties[prefix])
        else Failure(UnknownSortProperty(domainProperty))
  }

  /** `buildExpression` */
  function BuildExpression(root: string, graphProperty: GraphProperty, domainProperty: string, order: Order, nd: NodeDescription): (r: Result<Expression, Error>)
    ensures r.Failure? <==> !graphProperty.isInternalIdProperty && graphProperty.isComposite && '.' !in domainProperty
    ensures r.Failure? ==> r.error == IllegalComposite(domainProperty)
    ensures r.Success? ==>
      (r.value.ToLower? <==> !graphProperty.isInternalIdProperty && !graphProperty.isComposite && order.ignoreCase)
    ensures r.Success? ==>
      var p := if r.value.ToLower? then r.value.argument else r.value;
      p.Property? && p.container == root && |p.names| >= 1
  {
    if graphProperty.isInternalIdProperty then Success(Property(root, [NameOfInternalId]))
    else if graphProperty.isComposite then
      if '.' !in domainProperty then Failure(IllegalComposite(domainProperty))
      else if nd.containsPossibleCircles then Success(Property(root, [domainProperty]))
      else Success(Property(root, [NameOfAllProperties, domainProperty]))
    else
      var expression := Property(root, [graphProperty.propertyName]);
      Success(if order.ignoreCase then ToLower(expression) else expression)
  }

  /** `sortAdapterFor(nd)` applied to one order: item is descending exactly when the order is; otherwise undefined. */
  function SortAdapterFor(nd: NodeDescription, order: Order): (r: Result<SortItem, Error>)
    ensures r.Success? ==> (r.value.direction == DESC <==> order.IsDescending())
    ensures r.Success? ==> r.value.direction != ASC
  {
    var domainProperty := order.property;
    var propertyIsQualifiedOrComposite := '.' in domainProperty;
    match ResolveRootSymbolicName(nd, domainProperty, propertyIsQualifiedOrComposite)
    case Failure(e) => Failure(e)
    case Success(root) =>
      match ResolveGraphProperty(nd, domainProperty)
      case Failure(e) => Failure(e)
      case Success(graphProperty) =>
        match BuildExpression(root, graphProperty, domainProperty, order, nd)
        case Failure(e) => Failure(e)
        case Success(expression) =>
          var sortItem := SortItem(expression, UNDEFINED);
          Success(if order.IsDescending() then sortItem.(direction := DESC) else sortItem)
  }

  lemma UndottedPrefix(s: string)
    requires '.' !in s
    ensures PrefixBeforeDot(s) == s
  {
  }

  /**
   * When a sort order fails, and with which error: a path of dots only, a property unknown under
   * both lookups, or a composite property named without a nested field.
   */
  lemma SortAdapterForErrors(nd: NodeDescription, order: Order)
    ensures var dp := order.property;
      SortAdapterFor(nd, order) ==
        if OnlyDots(dp) then Failure(SegmentIndexOutOfBounds(dp))
        else if dp !in nd.properties && PrefixBeforeDot(dp) !in nd.properties then Failure(UnknownSortProperty(dp))
        else if '.' !in dp && dp in nd.properties && !nd.properties[dp].isInternalIdProperty && nd.properties[dp].isComposite
        then Failure(IllegalComposite(dp))
        else Success(SortAdapterFor(nd, order).value)
  {
    var dp := order.property;
    if '.' !in dp {
      UndottedPrefix(dp);
    }
  }

  /**
   * The expression of a resolved sort item: the internal-id property, a composite's nested field
   * (a direct path when the entity may contain cycles, through the all-properties map otherwise),
   * or the scalar's stored name, lower-cased only when the order ignores case.
   */
  lemma SortItemShape(nd: NodeDescription, order: Order)
    requires SortAdapterFor(nd, order).Success?
    ensures var dp := order.property;
      var item := SortAdapterFor(nd, order).value;
      var root := if '.' !in dp || PrefixBeforeDot(dp) in nd.properties then nd.rootName else PrefixBeforeDot(dp);
      var gp := if dp in nd.properties then nd.properties[dp] else nd.properties[PrefixBeforeDot(dp)];
      && (gp.isInternalIdProperty ==> item.expression == Property(root, [NameOfInternalId]))
      && (!gp.isInternalIdProperty && gp.isComposite ==>
            '.' in dp && item.expression == if nd.containsPossibleCircles then Property(root, [dp]) else Property(root, [NameOfAllProperties, dp]))
      && (!gp.isInternalIdProperty && !gp.isComposite ==>
            item.expression == if order.ignoreCase then ToLower(Property(root, [gp.propertyName])) else Property(root, [gp.propertyName]))
  {
    SortAdapterForErrors(nd, order);
  }

  /** `toSortItems`: one item per order, in order; the first order that fails decides the error. */
  function ToSortItems(nd: NodeDescription, sort: Sort): (r: Result<seq<SortItem>, Error>)
    ensures r.Success? <==> forall i :: 0 <= i < |sort| ==> SortAdapterFor(nd, sort[i]).Success?
    ensures r.Success? ==> |r.value| == |sort| && forall i :: 0 <= i < |sort| ==> r.value[i] == SortAdapterFor(nd, sort[i]).value
    ensures r.Failure? ==> exists i :: 0 <= i < |sort| && SortAdapterFor(nd, sort[i]) == Failure(r.error)
                                     && forall j :: 0 <= j < i ==> SortAdapterFor(nd, sort[j]).Success?
  {
    if sort == [] then Success([])
    else
      match SortAdapterFor(nd, sort[0])
      case Failure(e) => Failure(e)
      case Success(item) =>
        match ToSortItems(nd, sort[1..])
        case Failure(e) =>
          assert forall j :: 0 < j < |sort| ==> sort[j] == sort[1..][j - 1];
          Failure(e)
        case Success(items) => Success([item] + items)
  }

  /** What `addPagingParameter` adds to a statement: the sort items, then skip and limit. */
  datatype PagingClause = PagingClause(orderBy: seq<SortItem>, skip: int, limit: int)

  /** `addPagingParameter`: order by the page's sort, skip its offset, limit to its size. */
  function AddPagingParameter(nd: NodeDescription, pageable: Pageable): (r: Result<PagingClause, Error>)
    ensures r.Success? <==> ToSortItems(nd, pageable.sort).Success?
    ensures r.Success? ==> r.value == PagingClause(ToSortItems(nd, pageable.sort).value, pageable.offset, pageable.pageSize)
    ensures r.Failure? ==> r.error == ToSortItems(nd, pageable.sort).error
  {
    match ToSortItems(nd, pageable.sort)
    case Failure(e) => Failure(e)
    case Success(items) => Success(PagingClause(items, pageable.offset, pageable.pageSize))
  }

  // ---------------------------------------------------------------------------------------------
  // Comparators
  // ---------------------------------------------------------------------------------------------

  /**
   * `getComparatorFunction`: the comparison is strict exactly when scrolling forward, and it looks
   * for smaller values exactly when the sort and the scroll run opposite ways.
   */
  function GetComparatorFunction(sortDirection: Direction, scrollDirection: ScrollDirection): (c: Comparator)
    ensures (c.Gt? || c.Lt?) <==> scrollDirection.Forward?
    ensures (c.Lt? || c.Lte?) <==> (sortDirection.Ascending? <==> scrollDirection.Backward?)
  {
    if scrollDirection == Backward then (if sortDirection.IsAscending() then Lte else Gte)
    else (if sortDirection.IsAscending() then Gt else Lt)
  }

  /** The comparator table: forward ASC `>`, forward DESC `<`, backward ASC `<=`, backward DESC `>=`. */
  lemma ComparatorTable()
    ensures GetComparatorFunction(Ascending, Forward) == Gt
    ensures GetComparatorFunction(Descending, Forward) == Lt
    ensures GetComparatorFunction(Ascending, Backward) == Lte
    ensures GetComparatorFunction(Descending, Backward) == Gte
  {
  }

  /**
   * Forward picks values strictly after the cursor in the key's direction; backward picks exactly
   * the complement, the values at or before it.
   */
  lemma ComparatorSemantics(d: Direction, x: Value, v: Value)
    ensures Compare(GetComparatorFunction(d, Forward), x, v) <==> (if d == Ascending then x > v else x < v)
    ensures Compare(GetComparatorFunction(d, Backward), x, v) <==> !Compare(GetComparatorFunction(d, Forward), x, v)
  {
  }

  // ---------------------------------------------------------------------------------------------
  // Keyset condition: collecting the ordered keys (CypherAdapterUtils.java:121-139)
  // ---------------------------------------------------------------------------------------------

  /** One value of `propertyAndDirection`. */
  datatype PropertyAndOrder = PropertyAndOrder(property: GraphProperty, order: Order)

  /** A `LinkedHashMap<String, Object>`: its entries in insertion order. */
  type KeyMap = seq<(string, CursorValue)>

  /** `LinkedHashMap.put`: a new key goes last, a known key keeps its place and takes the new value. */
  function Put(m: KeyMap, k: string, v: CursorValue): KeyMap
  {
    if m == [] then [(k, v)]
    else if m[0].0 == k then [(k, v)] + m[1..]
    else [m[0]] + Put(m[1..], k, v)
  }

  predicate KeysWithin(m: KeyMap, s: set<string>) {
    forall i :: 0 <= i < |m| ==> m[i].0 in s
  }

  lemma {:induction false} PutWithin(m: KeyMap, k: string, v: CursorValue, s: set<string>)
    requires KeysWithin(m, s) && k in s
    ensures KeysWithin(Put(m, k, v), s)
  {
    if m != [] && m[0].0 != k {
      PutWithin(m[1..], k, v, s);
    }
  }

  /** `orderedKeys` and `propertyAndDirection` as `sort.forEach` leaves them. */
  datatype CollectedKeys = CollectedKeys(orderedKeys: KeyMap, propertyAndDirection: map<string, PropertyAndOrder>)

  /** One call of the `sort.forEach` body. */
  function CollectStep(entity: NodeDescription, incoming: map<string, CursorValue>, c: CollectedKeys, order: Order): Result<CollectedKeys, Error>
  {
    if order.property !in entity.properties then Failure(RequiredPropertyNotFound(order.property))
    else
      var property := entity.properties[order.property];
      var propertyName := property.propertyName;
      Success(CollectedKeys(
        if propertyName in incoming then Put(c.orderedKeys, propertyName, incoming[propertyName]) else c.orderedKeys,
        c.propertyAndDirection[propertyName := PropertyAndOrder(property, order)]))
  }

  /**
   * `sort.forEach(...)`: it fails exactly when some order names an unknown property, with the
   * first such one, and every ordered key has an entry in `propertyAndDirection`.
   */
  function CollectKeys(entity: NodeDescription, incoming: map<string, CursorValue>, sort: Sort): (r: Result<CollectedKeys, Error>)
    ensures r.Success? <==> forall i :: 0 <= i < |sort| ==> sort[i].property in entity.properties
    ensures r.Failure? ==> exists i :: 0 <= i < |sort| && sort[i].property !in entity.properties
                                     && r.error == RequiredPropertyNotFound(sort[i].property)
                                     && forall j :: 0 <= j < i ==> sort[j].property in entity.properties
    ensures r.Success? ==> KeysWithin(r.value.orderedKeys, r.value.propertyAndDirection.Keys)
    decreases |sort|
  {
    if sort == [] then Success(CollectedKeys([], map[]))
    else
      var init := sort[..|sort| - 1];
      assert forall i :: 0 <= i < |init| ==> init[i] == sort[i];
      match CollectKeys(entity, incoming, init)
      case Failure(e) => Failure(e)
      case Success(c) =>
        var order := sort[|sort| - 1];
        if order.property !in entity.properties then CollectStep(entity, incoming, c, order)
        else
          var name := entity.properties[order.property].propertyName;
          var s := c.propertyAndDirection.Keys + {name};
          assert KeysWithin(c.orderedKeys, s);
          assert name in incoming ==> KeysWithin(Put(c.orderedKeys, name, incoming[name]), s) by {
            if name in incoming { PutWithin(c.orderedKeys, name, incoming[name], s); }
          }
          CollectStep(entity, incoming, c, order)
  }

  /** `orderedKeys` after line 139: the additional-sort key is put last when the cursor carries it. */
  function OrderedKeys(entity: NodeDescription, pos: KeysetScrollPosition, sort: Sort): (r: Result<CollectedKeys, Error>)
    ensures r.Success? ==> KeysWithin(r.value.orderedKeys, r.value.propertyAndDirection.Keys + {NameOfAdditionalSort})
  {
    match CollectKeys(entity, pos.keys, sort)
    case Failure(e) => Failure(e)
    case Success(c) =>
      var s := c.propertyAndDirection.Keys + {NameOfAdditionalSort};
      assert KeysWithin(c.orderedKeys, s);
      if NameOfAdditionalSort in pos.keys then
        PutWithin(c.orderedKeys, NameOfAdditionalSort, pos.keys[NameOfAdditionalSort], s);
        Success(c.(orderedKeys := Put(c.orderedKeys, NameOfAdditionalSort, pos.keys[NameOfAdditionalSort])))
      else Success(c)
  }

  // ---------------------------------------------------------------------------------------------
  // Keyset condition: folding the ordered keys (CypherAdapterUtils.java:141-175)
  // ---------------------------------------------------------------------------------------------

  /** An ordered key once its value is known not to be null: what the loop body works with. */
  datatype Entry =
    | Regular(expression: Expression, comparator: Comparator, value: Value)
    | TieBreak(expression: Expression, comparator: Comparator, value: Value)

  /** The checks and lookups of one loop iteration, before any accumulator is touched. */
  function ResolveEntry(entity: NodeDescription, pos: KeysetScrollPosition, pad: map<string, PropertyAndOrder>, key: (string, CursorValue)): Result<Entry, Error>
    requires key.0 == NameOfAdditionalSort || key.0 in pad
  {
    var (k, v) := key;
    if !v.Present? then Failure(UnresumableCursor(k))
    else if k == NameOfAdditionalSort then
      Success(TieBreak(entity.idExpression,
                       GetComparatorFunction(if pos.ScrollsForward() then Ascending else Descending, pos.direction),
                       v.value))
    else
      var p := pad[k];
      Success(Regular(if p.property.isIdProperty then entity.idExpression else Property(entity.rootName, [k]),
                      GetComparatorFunction(p.order.direction, pos.direction),
                      v.value))
  }

  /** All iterations' checks in order; the first null value aborts. */
  function ResolveAll(entity: NodeDescription, pos: KeysetScrollPosition, pad: map<string, PropertyAndOrder>, keys: KeyMap): (r: Result<seq<Entry>, Error>)
    requires KeysWithin(keys, pad.Keys + {NameOfAdditionalSort})
    decreases |keys|
  {
    if keys == [] then Success([])
    else
      var init := keys[..|keys| - 1];
      assert forall i :: 0 <= i < |init| ==> init[i] == keys[i];
      assert KeysWithin(init, pad.Keys + {NameOfAdditionalSort});
      match ResolveAll(entity, pos, pad, init)
      case Failure(e) => Failure(e)
      case Success(es) =>
        match ResolveEntry(entity, pos, pad, keys[|keys| - 1])
        case Failure(e) => Failure(e)
        case Success(entry) => Success(es + [entry])
  }

  /**
   * Resolving succeeds exactly when every value is present, resolving key by key; otherwise it
   * fails on the first null value.
   */
  lemma {:induction false} ResolveAllMeaning(entity: NodeDescription, pos: KeysetScrollPosition, pad: map<string, PropertyAndOrder>, keys: KeyMap)
    requires KeysWithin(keys, pad.Keys + {NameOfAdditionalSort})
    ensures var r := ResolveAll(entity, pos, pad, keys);
      && (r.Success? <==> forall i :: 0 <= i < |keys| ==> keys[i].1.Present?)
      && (r.Success? ==> |r.value| == |keys|
                         && forall i :: 0 <= i < |keys| ==> r.value[i] == ResolveEntry(entity, pos, pad, keys[i]).value)
      && (r.Failure? ==> exists i :: 0 <= i < |keys| && !keys[i].1.Present? && r.error == UnresumableCursor(keys[i].0)
                                    && forall j :: 0 <= j < i ==> keys[j].1.Present?)
    decreases |keys|
  {
    if keys != [] {
      var init := keys[..|keys| - 1];
      assert forall i :: 0 <= i < |init| ==> init[i] == keys[i];
      ResolveAllMeaning(entity, pos, pad, init);
    }
  }

  /** `resultingCondition`, `nextEquals` and `allEqualsWithArtificialSort`. */
  datatype Accumulators = Accumulators(resultingCondition: Condition, nextEquals: Condition, allEqualsWithArtificialSort: Condition)

  const Initial: Accumulators := Accumulators(NoCondition, NoCondition, NoCondition)

  /**
   * One loop iteration on the accumulators. A tie-break only extends the all-equal conjunction;
   * a regular key adds the disjunct `nextEquals AND cmp` and then REPLACES `nextEquals` (line 171).
   */
  function Step(acc: Accumulators, entry: Entry): Accumulators
  {
    match entry
    case TieBreak(x, c, v) =>
      acc.(allEqualsWithArtificialSort := AndC(acc.allEqualsWithArtificialSort, Cmp(c, x, v)))
    case Regular(x, c, v) =>
      var nextEquals := Eq(x, v);
      Accumulators(OrC(acc.resultingCondition, AndC(acc.nextEquals, Cmp(c, x, v))),
                   nextEquals,
                   AndC(acc.allEqualsWithArtificialSort, nextEquals))
  }

  function Fold(entries: seq<Entry>): Accumulators
    decreases |entries|
  {
    if entries == [] then Initial else Step(Fold(entries[..|entries| - 1]), entries[|entries| - 1])
  }

  /** Line 175. */
  function Combined(acc: Accumulators): Condition {
    OrC(acc.resultingCondition, acc.allEqualsWithArtificialSort)
  }

  /** What `combineKeysetIntoCondition` returns or throws. */
  function KeysetCondition(entity: NodeDescription, pos: KeysetScrollPosition, sort: Sort): Result<Condition, Error>
  {
    match OrderedKeys(entity, pos, sort)
    case Failure(e) => Failure(e)
    case Success(c) =>
      match ResolveAll(entity, pos, c.propertyAndDirection, c.orderedKeys)
      case Failure(e) => Failure(e)
      case Success(entries) => Success(Combined(Fold(entries)))
  }

  lemma {:induction false} CollectKeysFailureSticks(entity: NodeDescription, incoming: map<string, CursorValue>, sort: Sort, i: nat)
    requires i <= |sort| && CollectKeys(entity, incoming, sort[..i]).Failure?
    ensures CollectKeys(entity, incoming, sort) == CollectKeys(entity, incoming, sort[..i])
    decreases |sort| - i
  {
    if i == |sort| {
      assert sort[..i] == sort;
    } else {
      assert sort[..i + 1][..i] == sort[..i];
      CollectKeysFailureSticks(entity, incoming, sort, i + 1);
    }
  }

  lemma {:induction false} ResolveAllFailureSticks(entity: NodeDescription, pos: KeysetScrollPosition, pad: map<string, PropertyAndOrder>, keys: KeyMap, i: nat)
    requires KeysWithin(keys, pad.Keys + {NameOfAdditionalSort})
    requires i <= |keys| && ResolveAll(entity, pos, pad, keys[..i]).Failure?
    ensures ResolveAll(entity, pos, pad, keys) == ResolveAll(entity, pos, pad, keys[..i])
    decreases |keys| - i
  {
    if i == |keys| {
      assert keys[..i] == keys;
    } else {
      assert keys[..i + 1][..i] == keys[..i];
      ResolveAllFailureSticks(entity, pos, pad, keys, i + 1);
    }
  }

  lemma ResolveAllStep(entity: NodeDescription, pos: KeysetScrollPosition, pad: map<string, PropertyAndOrder>, keys: KeyMap, j: nat, entries: seq<Entry>)
    requires KeysWithin(keys, pad.Keys + {NameOfAdditionalSort})
    requires j < |keys| && ResolveAll(entity, pos, pad, keys[..j]) == Success(entries)
    ensures ResolveAll(entity, pos, pad, keys[..j + 1])
            == match ResolveEntry(entity, pos, pad, keys[j])
               case Failure(e) => Failure(e)
               case Success(entry) => Success(entries + [entry])
  {
    assert keys[..j + 1][..j] == keys[..j];
  }

  lemma FoldAppend(entries: seq<Entry>, entry: Entry)
    ensures Fold(entries + [entry]) == Step(Fold(entries), entry)
  {
    assert (entries + [entry])[..|entries|] == entries;
  }

  /** Lines 121-139: the `sort.forEach` that collects the ordered keys, then the additional-sort key. */
  method CollectOrderedKeys(entity: NodeDescription, scrollPosition: KeysetScrollPosition, sort: Sort) returns (r: Result<CollectedKeys, Error>)
    ensures r == OrderedKeys(entity, scrollPosition, sort)
  {
    var incomingKeys := scrollPosition.keys;
    var orderedKeys: KeyMap := [];
    var propertyAndDirection: map<string, PropertyAndOrder> := map[];

    for i := 0 to |sort|
      invariant CollectKeys(entity, incomingKeys, sort[..i]) == Success(CollectedKeys(orderedKeys, propertyAndDirection))
    {
      var order := sort[i];
      assert sort[..i + 1][..i] == sort[..i];
      if order.property !in entity.properties {
        CollectKeysFailureSticks(entity, incomingKeys, sort, i + 1);
        return Failure(RequiredPropertyNotFound(order.property));
      }
      var property := entity.properties[order.property];
      var propertyName := property.propertyName;
      propertyAndDirection := propertyAndDirection[propertyName := PropertyAndOrder(property, order)];
      if propertyName in incomingKeys {
        orderedKeys := Put(orderedKeys, propertyName, incomingKeys[propertyName]);
      }
    }
    assert sort[..|sort|] == sort;
    if NameOfAdditionalSort in incomingKeys {
      orderedKeys := Put(orderedKeys, NameOfAdditionalSort, incomingKeys[NameOfAdditionalSort]);
    }
    r := Success(CollectedKeys(orderedKeys, propertyAndDirection));
  }

  /** `combineKeysetIntoCondition`, step by step as the source does it. */
  method CombineKeysetIntoCondition(entity: NodeDescription, scrollPosition: KeysetScrollPosition, sort: Sort) returns (r: Result<Condition, Error>)
    ensures r == KeysetCondition(entity, scrollPosition, sort)
  {
    var collected := CollectOrderedKeys(entity, scrollPosition, sort);
    if collected.Failure? {
      return Failure(collected.error);
    }
    var orderedKeys := collected.value.orderedKeys;
    var propertyAndDirection := collected.value.propertyAndDirection;

    var root := entity.rootName;
    var resultingCondition := NoCondition;
    var nextEquals := NoCondition;
    var allEqualsWithArtificialSort := NoCondition;
    ghost var entries: seq<Entry> := [];

    for j := 0 to |orderedKeys|
      invariant ResolveAll(entity, scrollPosition, propertyAndDirection, orderedKeys[..j]) == Success(entries)
      invariant Fold(entries) == Accumulators(resultingCondition, nextEquals, allEqualsWithArtificialSort)
    {
      var (k, v) := orderedKeys[j];
      ResolveAllStep(entity, scrollPosition, propertyAndDirection, orderedKeys, j, entries);
      if v.JavaNull? || v.NullValue? {
        ResolveAllFailureSticks(entity, scrollPosition, propertyAndDirection, orderedKeys, j + 1);
        return Failure(UnresumableCursor(k));
      }
      var parameter := v.value;
      var expression: Expression;
      var scrollDirection := scrollPosition.direction;
      ghost var entry: Entry;
      if k == NameOfAdditionalSort {
        expression := entity.idExpression;
        var comparatorFunction := GetComparatorFunction(if scrollPosition.ScrollsForward() then Ascending else Descending, scrollDirection);
        allEqualsWithArtificialSort := AndC(allEqualsWithArtificialSort, Cmp(comparatorFunction, expression, parameter));
        entry := TieBreak(expression, comparatorFunction, parameter);
      } else {
        var p := propertyAndDirection[k];
        expression := if p.property.isIdProperty then entity.idExpression else Property(root, [k]);
        var comparatorFunction := GetComparatorFunction(p.order.direction, scrollDirection);
        resultingCondition := OrC(resultingCondition, AndC(nextEquals, Cmp(comparatorFunction, expression, parameter)));
        nextEquals := Eq(expression, parameter);
        allEqualsWithArtificialSort := AndC(allEqualsWithArtificialSort, nextEquals);
        entry := Regular(expression, comparatorFunction, parameter);
      }
      FoldAppend(entries, entry);
      entries := entries + [entry];
    }
    assert orderedKeys[..|orderedKeys|] == orderedKeys;
    r := Success(OrC(resultingCondition, allEqualsWithArtificialSort));
  }

  // ---------------------------------------------------------------------------------------------
  // What the ordered keys are
  // ---------------------------------------------------------------------------------------------

  /** The graph property names of the sort's orders, in order. */
  function PropertyNames(entity: NodeDescription, sort: Sort): seq<string>
    requires forall i :: 0 <= i < |sort| ==> sort[i].property in entity.properties
  {
    seq(|sort|, i requires 0 <= i < |sort| => entity.properties[sort[i].property].propertyName)
  }

  /** The names the cursor carries a value for, in order. */
  function PresentNames(names: seq<string>, incoming: map<string, CursorValue>): (r: seq<string>)
    ensures forall x :: x in r <==> x in names && x in incoming
    decreases |names|
  {
    if names == [] then []
    else
      var init := names[..|names| - 1];
      assert names == init + [names[|names| - 1]];
      PresentNames(init, incoming) + (if names[|names| - 1] in incoming then [names[|names| - 1]] else [])
  }

  /** The position of the first occurrence of `x` in `s`. */
  function FirstIndex(s: seq<string>, x: string): (i: nat)
    requires x in s
    ensures i < |s| && s[i] == x && x !in s[..i]
  {
    if s[0] == x then 0
    else
      var j := FirstIndex(s[1..], x);
      assert s[..1 + j] == [s[0]] + s[1..][..j];
      1 + j
  }

  /** Appending to a sequence leaves the first occurrences of its elements where they were. */
  lemma FirstIndexOfPrefix(s: seq<string>, t: seq<string>)
    ensures forall x :: x in s ==> FirstIndex(s + t, x) == FirstIndex(s, x)
  {
    forall x | x in s
      ensures FirstIndex(s + t, x) == FirstIndex(s, x)
    {
      var i := FirstIndex(s + t, x);
      var j := FirstIndex(s, x);
      assert forall k :: 0 <= k < j ==> s[..j][k] == s[k];
      assert forall k :: 0 <= k < i ==> (s + t)[..i][k] == (s + t)[k];
      assert forall k :: 0 <= k < |s| ==> (s + t)[k] == s[k];
    }
  }

  /**
   * The first occurrence of every element, in order: what a `LinkedHashMap` keeps of repeated
   * `put`s of the same keys. The result holds each element of `s` exactly once, ordered by
   * where it first occurs in `s`.
   */
  function Dedup(s: seq<string>): (r: seq<string>)
    ensures forall x :: x in r <==> x in s
    ensures Distinct(r)
    ensures forall i, j :: 0 <= i < j < |r| ==> FirstIndex(s, r[i]) < FirstIndex(s, r[j])
    decreases |s|
  {
    if s == [] then []
    else
      var init := s[..|s| - 1];
      var last := s[|s| - 1];
      assert s == init + [last];
      FirstIndexOfPrefix(init, [last]);
      var d := Dedup(init);
      assert forall x :: x in init ==> FirstIndex(init, x) < |init|;
      assert last !in init ==> FirstIndex(s, last) == |init| by {
        if last !in init {
          assert s[..|init|] == init;
        }
      }
      if last in d then d else d + [last]
  }

  predicate Distinct(s: seq<string>) {
    forall i, j :: 0 <= i < j < |s| ==> s[i] != s[j]
  }

  /** The entries of a key map that gives each key its cursor value. */
  function Pairs(incoming: map<string, CursorValue>, ks: seq<string>): (m: KeyMap)
    requires forall k :: k in ks ==> k in incoming
    ensures |m| == |ks|
  {
    seq(|ks|, i requires 0 <= i < |ks| => (ks[i], incoming[ks[i]]))
  }

  lemma {:induction false} PutPairs(incoming: map<string, CursorValue>, ks: seq<string>, k: string)
    requires forall x :: x in ks ==> x in incoming
    requires k in incoming
    ensures Put(Pairs(incoming, ks), k, incoming[k]) == Pairs(incoming, if k in ks then ks else ks + [k])
  {
    if ks != [] {
      assert Pairs(incoming, ks)[1..] == Pairs(incoming, ks[1..]);
      if ks[0] != k {
        PutPairs(incoming, ks[1..], k);
        if k in ks {
          assert k in ks[1..];
        } else {
          assert ks[1..] + [k] == (ks + [k])[1..];
        }
      }
    }
  }

  lemma {:induction false} CollectKeysOrdered(entity: NodeDescription, incoming: map<string, CursorValue>, sort: Sort)
    requires CollectKeys(entity, incoming, sort).Success?
    ensures CollectKeys(entity, incoming, sort).value.orderedKeys
            == Pairs(incoming, Dedup(PresentNames(PropertyNames(entity, sort), incoming)))
    decreases |sort|
  {
    if sort != [] {
      var init := sort[..|sort| - 1];
      assert forall i :: 0 <= i < |init| ==> init[i] == sort[i];
      CollectKeysOrdered(entity, incoming, init);
      var names := PropertyNames(entity, sort);
      var name := names[|sort| - 1];
      assert names[..|names| - 1] == PropertyNames(entity, init);
      var present := PresentNames(PropertyNames(entity, init), incoming);
      if name in incoming {
        assert PresentNames(names, incoming) == present + [name];
        assert (present + [name])[..|present|] == present;
        PutPairs(incoming, Dedup(present), name);
      } else {
        assert PresentNames(names, incoming) == present;
      }
    }
  }

  /**
   * The ordered keys are the first occurrences of the sort's property names that the cursor
   * carries, in sort order, each with its cursor value; the additional-sort key follows exactly
   * when the cursor has it, unless a sort property already took that name.
   */
  lemma OrderedKeysContents(entity: NodeDescription, pos: KeysetScrollPosition, sort: Sort)
    requires OrderedKeys(entity, pos, sort).Success?
    ensures forall i :: 0 <= i < |sort| ==> sort[i].property in entity.properties
    ensures var present := Dedup(PresentNames(PropertyNames(entity, sort), pos.keys));
      OrderedKeys(entity, pos, sort).value.orderedKeys ==
        Pairs(pos.keys, if NameOfAdditionalSort in pos.keys && NameOfAdditionalSort !in present
                        then present + [NameOfAdditionalSort] else present)
  {
    CollectKeysOrdered(entity, pos.keys, sort);
    var present := Dedup(PresentNames(PropertyNames(entity, sort), pos.keys));
    if NameOfAdditionalSort in pos.keys {
      PutPairs(pos.keys, present, NameOfAdditionalSort);
    }
  }

  /**
   * `propertyAndDirection` maps the property names of the sort, and nothing else, to the last
   * order that names each of them.
   */
  lemma {:induction false} CollectKeysLastOrderWins(entity: NodeDescription, incoming: map<string, CursorValue>, sort: Sort)
    requires CollectKeys(entity, incoming, sort).Success?
    ensures forall i :: 0 <= i < |sort| ==> sort[i].property in entity.properties
    ensures var pad := CollectKeys(entity, incoming, sort).value.propertyAndDirection;
      var names := PropertyNames(entity, sort);
      && (forall k :: k in pad <==> k in names)
      && forall i :: 0 <= i < |sort| && (forall j :: i < j < |sort| ==> names[j] != names[i]) ==>
           pad[names[i]] == PropertyAndOrder(entity.properties[sort[i].property], sort[i])
    decreases |sort|
  {
    if sort != [] {
      var init := sort[..|sort| - 1];
      assert forall i :: 0 <= i < |init| ==> init[i] == sort[i];
      CollectKeysLastOrderWins(entity, incoming, init);
      var c := CollectKeys(entity, incoming, init).value;
      var order := sort[|sort| - 1];
      var property := entity.properties[order.property];
      var pad := c.propertyAndDirection[property.propertyName := PropertyAndOrder(property, order)];
      assert CollectKeys(entity, incoming, sort).value.propertyAndDirection == pad;
      var names := PropertyNames(entity, sort);
      var initNames := PropertyNames(entity, init);
      assert names == initNames + [property.propertyName];
      forall i | 0 <= i < |sort| && (forall j :: i < j < |sort| ==> names[j] != names[i])
        ensures pad[names[i]] == PropertyAndOrder(entity.properties[sort[i].property], sort[i])
      {
        if i < |init| {
          assert names[i] == initNames[i];
          assert forall j :: i < j < |init| ==> initNames[j] != initNames[i] by {
            forall j | i < j < |init| ensures initNames[j] != initNames[i] {
              assert names[j] == initNames[j];
            }
          }
          assert names[|sort| - 1] != names[i];
        }
      }
    }
  }

  lemma {:induction false} PresentNamesDistinct(names: seq<string>, incoming: map<string, CursorValue>)
    requires Distinct(names)
    ensures Distinct(PresentNames(names, incoming))
    decreases |names|
  {
    if names != [] {
      var init := names[..|names| - 1];
      PresentNamesDistinct(init, incoming);
    }
  }

  lemma {:induction false} DedupDistinct(s: seq<string>)
    requires Distinct(s)
    ensures Dedup(s) == s
    decreases |s|
  {
    if s != [] {
      var init := s[..|s| - 1];
      DedupDistinct(init);
      assert s == init + [s[|s| - 1]];
    }
  }

  /**
   * For a sort naming each property once and none by the reserved name, the ordered keys are
   * exactly the sort properties present in the cursor, in sort order, followed by the
   * additional-sort key if and only if the cursor has it.
   */
  lemma OrderedKeysOfDistinctSort(entity: NodeDescription, pos: KeysetScrollPosition, sort: Sort)
    requires forall i :: 0 <= i < |sort| ==> sort[i].property in entity.properties
    requires Distinct(PropertyNames(entity, sort)) && NameOfAdditionalSort !in PropertyNames(entity, sort)
    ensures OrderedKeys(entity, pos, sort).Success?
    ensures OrderedKeys(entity, pos, sort).value.orderedKeys ==
      Pairs(pos.keys, PresentNames(PropertyNames(entity, sort), pos.keys))
      + (if NameOfAdditionalSort in pos.keys then [(NameOfAdditionalSort, pos.keys[NameOfAdditionalSort])] else [])
  {
    var names := PropertyNames(entity, sort);
    OrderedKeysContents(entity, pos, sort);
    PresentNamesDistinct(names, pos.keys);
    DedupDistinct(PresentNames(names, pos.keys));
    var present := PresentNames(names, pos.keys);
    if NameOfAdditionalSort in pos.keys {
      assert Pairs(pos.keys, present + [NameOfAdditionalSort])
             == Pairs(pos.keys, present) + [(NameOfAdditionalSort, pos.keys[NameOfAdditionalSort])];
    }
  }

  // ---------------------------------------------------------------------------------------------
  // Null cursor values, and what the condition is made of
  // ---------------------------------------------------------------------------------------------

  /**
   * An ordered key whose cursor value is null (Java `null` or a driver null) makes the whole call
   * throw, naming the first such key: no condition is returned. With no null value and every
   * sort property known, a condition is returned.
   */
  lemma NullCursorValueIsFatal(entity: NodeDescription, pos: KeysetScrollPosition, sort: Sort)
    requires OrderedKeys(entity, pos, sort).Success?
    ensures var keys := OrderedKeys(entity, pos, sort).value.orderedKeys;
      && (forall i :: 0 <= i < |keys| && !keys[i].1.Present? && (forall j :: 0 <= j < i ==> keys[j].1.Present?) ==>
            KeysetCondition(entity, pos, sort) == Failure(UnresumableCursor(keys[i].0)))
      && ((forall i :: 0 <= i < |keys| ==> keys[i].1.Present?) <==> KeysetCondition(entity, pos, sort).Success?)
  {
    var c := OrderedKeys(entity, pos, sort).value;
    var keys := c.orderedKeys;
    var r := ResolveAll(entity, pos, c.propertyAndDirection, keys);
    ResolveAllMeaning(entity, pos, c.propertyAndDirection, keys);
    forall i | 0 <= i < |keys| && !keys[i].1.Present? && (forall j :: 0 <= j < i ==> keys[j].1.Present?)
      ensures KeysetCondition(entity, pos, sort) == Failure(UnresumableCursor(keys[i].0))
    {
      var i' :| 0 <= i' < |keys| && !keys[i'].1.Present? && r.error == UnresumableCursor(keys[i'].0)
                && forall j :: 0 <= j < i' ==> keys[j].1.Present?;
      assert i' == i;
    }
  }

  /** The equality of the last regular entry, or no condition when there is none. */
  function PrecedingEquality(es: seq<Entry>): Condition
    decreases |es|
  {
    if es == [] then NoCondition
    else match es[|es| - 1]
      case Regular(x, _, v) => Eq(x, v)
      case TieBreak(_, _, _) => PrecedingEquality(es[..|es| - 1])
  }

  /**
   * One disjunct per regular entry, in order: the preceding regular entry's equality (only that
   * one) AND the entry's comparison. A tie-break adds none.
   */
  function Disjuncts(es: seq<Entry>): seq<Condition>
    decreases |es|
  {
    if es == [] then []
    else
      var init := es[..|es| - 1];
      match es[|es| - 1]
      case Regular(x, c, v) => Disjuncts(init) + [AndC(PrecedingEquality(init), Cmp(c, x, v))]
      case TieBreak(_, _, _) => Disjuncts(init)
  }

  /** The all-equal conjunction's parts: each regular entry's equality, the tie-break's comparison. */
  function Conjuncts(es: seq<Entry>): seq<Condition>
  {
    seq(|es|, i requires 0 <= i < |es| =>
      match es[i]
      case Regular(x, _, v) => Eq(x, v)
      case TieBreak(x, c, v) => Cmp(c, x, v))
  }

  function OrAll(cs: seq<Condition>): Condition
    decreases |cs|
  {
    if cs == [] then NoCondition else OrC(OrAll(cs[..|cs| - 1]), cs[|cs| - 1])
  }

  function AndAll(cs: seq<Condition>): Condition
    decreases |cs|
  {
    if cs == [] then NoCondition else AndC(AndAll(cs[..|cs| - 1]), cs[|cs| - 1])
  }

  /**
   * The three accumulators after the loop: the disjunction of the disjuncts, the last regular
   * entry's equality, and the conjunction of every entry's all-equal part in order (so the
   * tie-break's comparison comes after the equalities of every earlier regular key).
   */
  lemma {:induction false} FoldShape(es: seq<Entry>)
    ensures Fold(es) == Accumulators(OrAll(Disjuncts(es)), PrecedingEquality(es), AndAll(Conjuncts(es)))
    decreases |es|
  {
    if es != [] {
      var init := es[..|es| - 1];
      FoldShape(init);
      assert Conjuncts(es)[..|es| - 1] == Conjuncts(init);
      match es[|es| - 1]
      case Regular(x, c, v) =>
        assert Disjuncts(es)[..|Disjuncts(es)| - 1] == Disjuncts(init);
      case TieBreak(_, _, _) =>
    }
  }

  /**
   * The returned condition is `disjunction OR all-equal`; each entry is the tie-break on the id
   * expression when its key is the additional-sort key, and otherwise a regular key on the id
   * expression (for the id property) or on `root.property(k)`, with the comparator of the table.
   * No ordered keys give no condition.
   */
  lemma KeysetConditionShape(entity: NodeDescription, pos: KeysetScrollPosition, sort: Sort)
    requires KeysetCondition(entity, pos, sort).Success?
    ensures var c := OrderedKeys(entity, pos, sort).value;
      var keys := c.orderedKeys;
      var pad := c.propertyAndDirection;
      var es := ResolveAll(entity, pos, pad, keys).value;
      && KeysetCondition(entity, pos, sort).value == OrC(OrAll(Disjuncts(es)), AndAll(Conjuncts(es)))
      && |es| == |keys|
      && (forall i :: 0 <= i < |keys| ==> keys[i].1.Present?)
      && (forall i :: 0 <= i < |keys| && keys[i].0 == NameOfAdditionalSort ==>
            es[i] == TieBreak(entity.idExpression,
                              GetComparatorFunction(if pos.ScrollsForward() then Ascending else Descending, pos.direction),
                              keys[i].1.value))
      && (forall i :: 0 <= i < |keys| && keys[i].0 != NameOfAdditionalSort ==>
            keys[i].0 in pad
            && es[i] == Regular(if pad[keys[i].0].property.isIdProperty then entity.idExpression
                                else Property(entity.rootName, [keys[i].0]),
                                GetComparatorFunction(pad[keys[i].0].order.direction, pos.direction),
                                keys[i].1.value))
      && (keys == [] ==> KeysetCondition(entity, pos, sort).value == NoCondition)
  {
    var c := OrderedKeys(entity, pos, sort).value;
    var es := ResolveAll(entity, pos, c.propertyAndDirection, c.orderedKeys).value;
    ResolveAllMeaning(entity, pos, c.propertyAndDirection, c.orderedKeys);
    FoldShape(es);
  }
}
