# Query construction in Spring Data Neo4j, modelled in Dafny

This project models the part of Spring Data Neo4j's repository layer that turns a derived query into one Cypher statement. It covers four pieces.

- **`CypherAdapterUtils`**
  - Resolves each Spring Data sort order into a Cypher sort item: the root variable, the graph property, and the expression (internal id, composite field, or scalar with optional `toLower`).
  - Builds the paging clause.
  - Builds the keyset-pagination condition. `combineKeysetIntoCondition` first collects an insertion-ordered map of the cursor keys named by the sort. It then folds that map, through three accumulators, into `disjunction OR all-equal-with-tie-break`.
- **`QueryFragments`**: the mutable builder a query method fills in. It is a Dafny class with one method per setter and the `includeField` predicate.
- **`StatementBuilderHelper`**: assembles the fragments into a statement record. It covers:
  - the match clause;
  - the choice between explicit and projected return expressions;
  - distinctness;
  - the optional reversal of the sort items for backward scrolling, done by a visitor.
- **`ReturnTuple`**: the projection predicate. It renames the first path segment when that segment is an `@Property`-annotated property, then tests membership in the property filter.

The Cypher-DSL types are abstract datatypes (module `Cypher`):
- an expression is a property path, a `toLower`, or an opaque expression;
- a condition is `NoCondition`, a comparison, an equality, `And` or `Or`.

`NoCondition` is the identity of `and`/`or`, through the smart constructors `AndC`/`OrC`. `Holds` evaluates a condition on a row, which maps each expression to an integer value. The mapping metadata is given as plain data (module `Mapping`), and so are the sort and cursor types (module `SpringData`). A method that throws returns `Failure` with the exception's cause (module `QueryErrors`).

The keyset condition is compared with an independent reference, `KeysetSemantics.Selected`. It orders rows lexicographically by the sort keys, each in its own direction, and then by the id ascending. Forward, a row is selected when it comes strictly after the cursor in that order. Backward, it is selected when it comes strictly before.

When the cursor carries no `__stable_uniq_sort__` value, nothing breaks the tie. Rows equal to the cursor on every key, the cursor row among them, are then selected in both directions. The code behaves the same way (`KeysetSemantics.ForwardWithoutTieReselectsCursorRow`), so `Selected` includes that case rather than excluding it.

- With both corrections listed under Findings, the condition selects exactly `Selected`, for any number of keys and in both directions.
- The condition as written matches `Selected` forward for at most two sort keys.
- Forward with three or more keys, and backward with any number of keys, it can select other rows; see Findings.

`KeysetSemantics.TableSelects` is a second reading, of the comparator table as written. Forward it coincides with `Selected`. Backward it means "at or before the cursor" on each key, with a `>=` tie-break, and it depends only on the first key. The code as written matches `TableSelects` for at most two keys in both directions.

## Model

All source paths below are under `src/main/java/org/springframework/data/neo4j/repository/query/`.

| member | source | states |
|---|---|---|
| CypherAdapter.ResolveRootSymbolicName | src/main/java/org/springframework/data/neo4j/repository/query/CypherAdapterUtils.java:73-84 | An undotted path sorts on the typed root. A dotted path sorts on the root when its first segment is a graph property, and otherwise on the variable named by that segment. A path of dots only fails, as `split("\\.")[0]` does. |
| CypherAdapter.ResolveGraphProperty | src/main/java/org/springframework/data/neo4j/repository/query/CypherAdapterUtils.java:86-96 | The full path is looked up first, then the part before the first dot. A property unknown under both lookups is an `UnknownSortProperty` error. |
| CypherAdapter.SortAdapterFor | src/main/java/org/springframework/data/neo4j/repository/query/CypherAdapterUtils.java:55-71 | A resolved item is descending exactly when the order is. It is never explicitly ascending: `Cypher.sort` leaves the direction undefined. |
| CypherAdapter.SortAdapterForErrors | src/main/java/org/springframework/data/neo4j/repository/query/CypherAdapterUtils.java:55-117 | Resolution fails in exactly three cases: a path of dots only; a property unknown under both lookups; a composite property named without a nested path (`IllegalComposite`). Each has its own error. |
| CypherAdapter.BuildExpression | src/main/java/org/springframework/data/neo4j/repository/query/CypherAdapterUtils.java:98-117 | Fails exactly for a composite property named without a dot, with `IllegalComposite`. On success the expression is a property path on the given root, under `toLower` exactly for a scalar property sorted ignoring case. |
| CypherAdapter.SortItemShape | src/main/java/org/springframework/data/neo4j/repository/query/CypherAdapterUtils.java:98-117 | An internal-id property gives `root.__internalNeo4jId__`. A composite property gives `root.<path>` when cycles are possible, and `root.__allProperties__.<path>` otherwise. A scalar gives `root.<stored name>`, under `toLower` exactly when the order ignores case. |
| CypherAdapter.ToSortItems | src/main/java/org/springframework/data/neo4j/repository/query/CypherAdapterUtils.java:192-195 | It succeeds iff every order resolves. It gives one item per order, in order. On failure, the first failing order's error is returned. |
| CypherAdapter.AddPagingParameter | src/main/java/org/springframework/data/neo4j/repository/query/CypherAdapterUtils.java:197-207 | Order by the page's sort items, skip = the page's offset, limit = the page's size. A sort that fails to resolve fails the call. |
| CypherAdapter.GetComparatorFunction | src/main/java/org/springframework/data/neo4j/repository/query/CypherAdapterUtils.java:178-183 | The comparison is strict exactly when scrolling forward. It looks for smaller values exactly when an ascending sort scrolls backward or a descending sort scrolls forward. |
| CypherAdapter.ComparatorTable | src/main/java/org/springframework/data/neo4j/repository/query/CypherAdapterUtils.java:178-183 | Forward ASC gives `>`, forward DESC `<`, backward ASC `<=`, backward DESC `>=`. |
| CypherAdapter.ComparatorSemantics | src/main/java/org/springframework/data/neo4j/repository/query/CypherAdapterUtils.java:178-183 | Forward picks values strictly after the cursor value in the key's direction. Backward picks exactly the complement of forward. |
| CypherAdapter.CollectKeys | src/main/java/org/springframework/data/neo4j/repository/query/CypherAdapterUtils.java:128-136 | Collecting fails iff some order names an unknown property, and it fails with the first such one. Every ordered key has an entry in `propertyAndDirection`. |
| CypherAdapter.OrderedKeys | src/main/java/org/springframework/data/neo4j/repository/query/CypherAdapterUtils.java:121-139 | Every ordered key is a key of `propertyAndDirection` or the additional-sort key. |
| CypherAdapter.CollectOrderedKeys | src/main/java/org/springframework/data/neo4j/repository/query/CypherAdapterUtils.java:121-139 | The `sort.forEach` loop and the additional-sort `put` compute exactly `OrderedKeys`, the error included. |
| CypherAdapter.ResolveAllMeaning | src/main/java/org/springframework/data/neo4j/repository/query/CypherAdapterUtils.java:149-173 | The loop's per-key checks succeed iff every ordered value is non-null. On success they resolve key by key. Otherwise the first null key aborts. |
| CypherAdapter.CombineKeysetIntoCondition | src/main/java/org/springframework/data/neo4j/repository/query/CypherAdapterUtils.java:119-176 | Both loops computed step by step give exactly `KeysetCondition`, the value or the exception. |
| CypherAdapter.OrderedKeysContents | src/main/java/org/springframework/data/neo4j/repository/query/CypherAdapterUtils.java:128-139 | The ordered map is the first occurrence of each sort property name the cursor carries, in sort order, each with its cursor value. The additional-sort key follows iff the cursor has it and no sort name already took it. |
| CypherAdapter.CollectKeysLastOrderWins | src/main/java/org/springframework/data/neo4j/repository/query/CypherAdapterUtils.java:128-131 | `propertyAndDirection` maps exactly the sort's property names. Each name maps to the last order that names it. |
| CypherAdapter.OrderedKeysOfDistinctSort | src/main/java/org/springframework/data/neo4j/repository/query/CypherAdapterUtils.java:128-139 | For a sort naming each property once, the ordered map is exactly the sort properties present in the cursor, in sort order. It is followed by the additional-sort key iff the cursor has that key. |
| CypherAdapter.PresentNames | src/main/java/org/springframework/data/neo4j/repository/query/CypherAdapterUtils.java:133-135 | A name is kept iff the sort names it and the cursor carries it. |
| CypherAdapter.Dedup | src/main/java/org/springframework/data/neo4j/repository/query/CypherAdapterUtils.java:133-135 | A repeated `put` keeps the first position. The result holds each element of the input exactly once, ordered by where each first occurs in the input. |
| CypherAdapter.PutPairs | src/main/java/org/springframework/data/neo4j/repository/query/CypherAdapterUtils.java:134 | A `LinkedHashMap.put` leaves a known key in its place with its value. An unknown key is appended last. |
| CypherAdapter.NullCursorValueIsFatal | src/main/java/org/springframework/data/neo4j/repository/query/CypherAdapterUtils.java:153-155 | An ordered key whose value is Java `null` or a driver null makes the call throw, naming the first such key. Without one, a condition is returned. |
| CypherAdapter.FoldShape | src/main/java/org/springframework/data/neo4j/repository/query/CypherAdapterUtils.java:143-173 | After the loop, the accumulators are as follows. The disjunction is one `prevEq AND cmp` per regular key, where `prevEq` is only the preceding regular key's equality. `nextEquals` is the last regular key's equality. The all-equal conjunction holds every regular equality and the tie-break comparison, in key order. |
| CypherAdapter.KeysetConditionShape | src/main/java/org/springframework/data/neo4j/repository/query/CypherAdapterUtils.java:141-175 | The result is `disjunction OR all-equal`. A regular key compares the id expression for the id property, and `root.property(k)` otherwise, with the table's comparator. The tie-break compares the id with `>` forward and `>=` backward. No ordered key gives `NoCondition`. |
| KeysetSemantics.BackwardSelectsByFirstKey | src/main/java/org/springframework/data/neo4j/repository/query/CypherAdapterUtils.java:179-181 | With inclusive backward comparators, the table's reading `TableSelects` depends only on the first key: the row is at or before the cursor there. |
| KeysetSemantics.ConjoinedFoldSelects | src/main/java/org/springframework/data/neo4j/repository/query/CypherAdapterUtils.java:141-175 | When `nextEquals` is conjoined instead of replaced, and the table is kept as written, the condition holds on a row iff `TableSelects` does, for any number of keys. |
| KeysetSemantics.AsWrittenAgreesUpToTwoKeys | src/main/java/org/springframework/data/neo4j/repository/query/CypherAdapterUtils.java:166-175 | With at most two regular keys, replacing `nextEquals` (line 171) builds the same condition as conjoining it. |
| KeysetSemantics.AsWrittenSelectsUpToTwoKeys | src/main/java/org/springframework/data/neo4j/repository/query/CypherAdapterUtils.java:141-175 | With at most two regular keys, the fold as written holds on a row iff `TableSelects` does. |
| KeysetSemantics.ThreeKeysForwardAcceptsEarlierRow | src/main/java/org/springframework/data/neo4j/repository/query/CypherAdapterUtils.java:170-171 | Keys a, b, c ascending, scrolling forward from (1, 1, 1): the fold as written accepts row (0, 1, 2), which is neither `Selected` nor `TableSelects`. The conjoined fold rejects it. |
| KeysetSemantics.ThreeKeysBackwardAcceptsLaterRow | src/main/java/org/springframework/data/neo4j/repository/query/CypherAdapterUtils.java:170-171 | Same keys, scrolling backward from (1, 1, 1): the fold as written accepts row (2, 1, 0). That row comes after the cursor on the first key, so it is neither `Selected` nor `TableSelects`. |
| KeysetSemantics.ForwardTableSelects | src/main/java/org/springframework/data/neo4j/repository/query/CypherAdapterUtils.java:178-183 | Forward, the comparator table's reading is exactly the lexicographic reference `Selected`. |
| KeysetSemantics.StrictTable | src/main/java/org/springframework/data/neo4j/repository/query/CypherAdapterUtils.java:178-183 | Making each comparator of the table strict gives the intended table: forward unchanged, backward ASC `<`, backward DESC `>`. |
| KeysetSemantics.IntendedBackwardIsFlippedForward | src/main/java/org/springframework/data/neo4j/repository/query/CypherAdapterUtils.java:179-181 | With the intended table, scrolling backward over the keys is scrolling forward over the same keys with every direction flipped. |
| KeysetSemantics.IntendedConditionSelects | src/main/java/org/springframework/data/neo4j/repository/query/CypherAdapterUtils.java:141-183 | With the equalities conjoined, the intended comparators and the id tie-break ascending, the fold holds on a row iff the row is `Selected`, in both directions and for any number of keys. |
| KeysetSemantics.IntendedOfTable | src/main/java/org/springframework/data/neo4j/repository/query/CypherAdapterUtils.java:161-169 | Applied to the entries the loop resolves, the corrected comparators give exactly the intended entries, the tie-break included. |
| KeysetSemantics.OrderedKeysOfResumableSort | src/main/java/org/springframework/data/neo4j/repository/query/CypherAdapterUtils.java:121-139 | This applies when each sort property is known, named once and carried with a non-null value. Then the ordered keys are the sort's names with their values, then the additional-sort key when present, and each name maps to its own order. |
| KeysetSemantics.ResolvedEntriesOfResumableSort | src/main/java/org/springframework/data/neo4j/repository/query/CypherAdapterUtils.java:149-173 | For such a sort, the loop resolves one regular key per order, in sort order. The tie-break follows iff the cursor carries the additional-sort value. |
| KeysetSemantics.CorrectedKeysetConditionSelects | src/main/java/org/springframework/data/neo4j/repository/query/CypherAdapterUtils.java:119-183 | Take line 171 conjoining the equalities, strict backward comparators, and a `<` backward tie-break. Then the method's condition holds on a row iff the row is `Selected`: strictly after the cursor forward, strictly before it backward. The order is the sort keys and then the id. Without a tie-break value, rows equal to the cursor on every key are selected as well. |
| KeysetSemantics.KeysetConditionSelectsUpToTwoKeys | src/main/java/org/springframework/data/neo4j/repository/query/CypherAdapterUtils.java:119-183 | With at most two sort orders, the condition the code returns holds on a row iff `TableSelects` does. Forward, that means iff the row is `Selected`. |
| KeysetSemantics.ForwardAgeScenario | src/main/java/org/springframework/data/neo4j/repository/query/CypherAdapterUtils.java:119-176 | Sort on age ascending, cursor age 30 and id 17, forward: the result is `age > 30 OR (age = 30 AND id > 17)`. |
| KeysetSemantics.BackwardAgeScenario | src/main/java/org/springframework/data/neo4j/repository/query/CypherAdapterUtils.java:119-176 | The same sort and cursor, backward: the result is `age <= 30 OR (age = 30 AND id >= 17)`. |
| KeysetSemantics.CorrectedBackwardAgeScenario | src/main/java/org/springframework/data/neo4j/repository/query/CypherAdapterUtils.java:119-183 | The same sort and cursor, backward, corrected: the result is `age < 30 OR (age = 30 AND id < 17)`. |
| KeysetSemantics.BackwardAgeAcceptsLaterRows | src/main/java/org/springframework/data/neo4j/repository/query/CypherAdapterUtils.java:161-181 | For that backward cursor, the condition as written accepts the cursor row and the row (age 30, id 99). Neither is `Selected`, and the corrected condition rejects both. |
| KeysetSemantics.ForwardWithoutTieReselectsCursorRow | src/main/java/org/springframework/data/neo4j/repository/query/CypherAdapterUtils.java:119-175 | Sort on age ascending, cursor age 30 with no tie-break value, forward: the result is `age > 30 OR age = 30`. It holds on the cursor row, which `Selected` also admits although the row does not come after the cursor. |
| KeysetSemantics.KeysetConditionThreeKeysAcceptsEarlierRow | src/main/java/org/springframework/data/neo4j/repository/query/CypherAdapterUtils.java:119-176 | Through the whole method (sort a, b, c ascending, cursor (1, 1, 1), forward): the returned condition accepts row (0, 1, 2), and the corrected one rejects it. |
| Fragments.QueryFragments.constructor | src/main/java/org/springframework/data/neo4j/repository/query/QueryFragments.java:23-37 | A fresh builder has empty match and return lists, and all three flags false. Its condition, order, limit, skip, return tuple, delete expression and filter are null. |
| Fragments.QueryFragments.AddMatchOn | src/main/java/org/springframework/data/neo4j/repository/query/QueryFragments.java:39-41 | The pattern is appended at the end, the earlier patterns are kept, and no other field changes. |
| Fragments.QueryFragments.SetMatchOn | src/main/java/org/springframework/data/neo4j/repository/query/QueryFragments.java:43-45 | The match list becomes the given list, and no other field changes. |
| Fragments.QueryFragments.SetCondition | src/main/java/org/springframework/data/neo4j/repository/query/QueryFragments.java:51-53 | A non-null condition is stored as given, and `null` stores `NoCondition`, so the stored condition is never null afterwards. No other field changes. |
| Fragments.QueryFragments.SetReturnExpressions | src/main/java/org/springframework/data/neo4j/repository/query/QueryFragments.java:59-61 | The return list becomes the given one, and nothing else changes. |
| Fragments.QueryFragments.SetDeleteExpression | src/main/java/org/springframework/data/neo4j/repository/query/QueryFragments.java:63-65 | The delete expression becomes the given one, and nothing else changes. |
| Fragments.QueryFragments.SetReturnExpression | src/main/java/org/springframework/data/neo4j/repository/query/QueryFragments.java:67-70 | The return list becomes exactly `[e]` and the scalar flag becomes the argument. No other field changes. |
| Fragments.QueryFragments.SetProjectingPropertyFilter | src/main/java/org/springframework/data/neo4j/repository/query/QueryFragments.java:72-74 | The filter becomes the given one, and nothing else changes. |
| Fragments.QueryFragments.SetOrderBy | src/main/java/org/springframework/data/neo4j/repository/query/QueryFragments.java:81-83 | The order-by becomes the given one, and nothing else changes. |
| Fragments.QueryFragments.SetLimit | src/main/java/org/springframework/data/neo4j/repository/query/QueryFragments.java:85-87 | The limit becomes the given one, and nothing else changes. |
| Fragments.QueryFragments.SetSkip | src/main/java/org/springframework/data/neo4j/repository/query/QueryFragments.java:89-91 | The skip becomes the given one, and nothing else changes. |
| Fragments.QueryFragments.SetReturnBasedOn | src/main/java/org/springframework/data/neo4j/repository/query/QueryFragments.java:93-96 | The return tuple becomes a new tuple over the node description, the included paths and the distinct flag. Nothing else changes. |
| Fragments.QueryFragments.SetRequiresReverseSort | src/main/java/org/springframework/data/neo4j/repository/query/QueryFragments.java:106-108 | The reverse-sort flag becomes the argument, and nothing else changes. |
| Fragments.QueryFragments.SetRenderConstantsAsParameters | src/main/java/org/springframework/data/neo4j/repository/query/QueryFragments.java:110-112 | The rendering flag becomes the argument, and nothing else changes. |
| Fragments.QueryFragments.IncludeField | src/main/java/org/springframework/data/neo4j/repository/query/QueryFragments.java:76-79 | A field is projected exactly when every restriction present accepts it. A field the projecting filter rejects, or the return tuple does not include, is not projected. A field that both accept, or that the one present accepts, is projected. With no return tuple the filter alone decides; with no filter the tuple alone decides; with neither, every field is projected. |
| Fragments.IncludeFieldReturnBasedOn | src/main/java/org/springframework/data/neo4j/repository/query/QueryFragments.java:76-79 | With no filter, after `setReturnBasedOn` a field is included iff one of the included paths names its stored dot path with its type. |
| ReturnTuples.ReturnTuple.Include | src/main/java/org/springframework/data/neo4j/repository/query/ReturnTuple.java:21-29 | Suppose the first segment is a persistent property annotated `@Property`. Then the path, with that segment renamed to the stored name, is looked up with its type. Otherwise the path as written is looked up. |
| ReturnTuples.NewReturnTuple | src/main/java/org/springframework/data/neo4j/repository/query/ReturnTuple.java:15-36 | The filter holds exactly the (path, type) pairs of the included paths. `getNodeDescription` returns the node description the tuple was built over, and `isDistinct` its distinct flag. |
| ReturnTuples.IncludeDependsOnStoredName | src/main/java/org/springframework/data/neo4j/repository/query/ReturnTuple.java:22-28 | Renaming applies only to the first segment: two paths with the same tail and type whose first segments map to the same stored name are included alike. |
| ReturnTuples.IncludeUnrenamed | src/main/java/org/springframework/data/neo4j/repository/query/ReturnTuple.java:22-28 | A field stored under its own name, or not annotated, is included iff its path as written is in the filter. |
| ReturnTuples.IncludeExample | src/main/java/org/springframework/data/neo4j/repository/query/ReturnTuple.java:15-29 | Take a node with fields `name` and `age`, projected to `name`. Then `name` is included and `age` is not. |
| StatementBuilding.Reverse | src/main/java/org/springframework/data/neo4j/repository/query/StatementBuilderHelper.java:82-98 | The visitor keeps the first expression. Ascending or undefined items become descending, descending ones ascending, and an item without a direction becomes descending. |
| StatementBuilding.ReverseAllFlips | src/main/java/org/springframework/data/neo4j/repository/query/StatementBuilderHelper.java:76-98 | Reversal keeps the length, and every expression at its position. Every direction becomes explicit, and an item is descending afterwards iff it was not before. |
| StatementBuilding.ReverseAllTwice | src/main/java/org/springframework/data/neo4j/repository/query/StatementBuilderHelper.java:82-98 | Reversing twice restores ascending and descending items, and turns undefined into ascending. Items that all carry a direction come back unchanged. |
| StatementBuilding.Projection | src/main/java/org/springframework/data/neo4j/repository/query/StatementBuilderHelper.java:61-63 | The projection holds exactly the expressions of the node's fields that `includeField` keeps. |
| StatementBuilding.ReturnExpressionsOf | src/main/java/org/springframework/data/neo4j/repository/query/StatementBuilderHelper.java:58-64 | A non-empty explicit list is returned verbatim. Otherwise the return tuple's node is projected through `includeField`. With neither, the call fails on the missing tuple. |
| StatementBuilding.IsDistinctReturnOf | src/main/java/org/springframework/data/neo4j/repository/query/StatementBuilderHelper.java:66-68 | The return is distinct iff there are no explicit expressions and the return tuple is distinct. The tuple is only dereferenced, and may be missing, when the list is empty. |
| StatementBuilding.StatementOfFailures | src/main/java/org/springframework/data/neo4j/repository/query/StatementBuilderHelper.java:27-47 | Building fails iff there is no pattern to match, or there is neither an explicit return list nor a return tuple. An empty match list is reported first. |
| StatementBuilding.StatementOfContents | src/main/java/org/springframework/data/neo4j/repository/query/StatementBuilderHelper.java:29-54 | The statement matches every pattern in order, the first opening the clause. Condition, delete expression, skip, limit and rendering flag pass through unchanged. The return clause and distinctness are as `getReturnExpressions`/`isDistinctReturn` decide. |
| StatementBuilding.StatementOfOrderBy | src/main/java/org/springframework/data/neo4j/repository/query/StatementBuilderHelper.java:70-79 | With no order set, the order-by is empty. Without the reverse flag, it is the items as stored. With it, each item is reversed in place. |
| StatementBuilding.StatementBuilderHelper.constructor | src/main/java/org/springframework/data/neo4j/repository/query/StatementBuilderHelper.java:23-25 | The helper holds the given fragments. |
| StatementBuilding.StatementBuilderHelper.GetOrderBy | src/main/java/org/springframework/data/neo4j/repository/query/StatementBuilderHelper.java:70-79 | The stream map over `reverse` computes exactly the order-by that `StatementOfOrderBy` describes. |
| StatementBuilding.StatementBuilderHelper.ToStatement | src/main/java/org/springframework/data/neo4j/repository/query/StatementBuilderHelper.java:27-56 | The match loop and the clauses that follow it build exactly `StatementOf`, failures included. |
| StatementBuilding.QueryFragmentsToStatement | src/main/java/org/springframework/data/neo4j/repository/query/QueryFragments.java:114-116 | `toStatement` on the fragments is the helper's statement. |
| StatementBuilding.EmptyMatchFails | src/main/java/org/springframework/data/neo4j/repository/query/StatementBuilderHelper.java:29-39 | Fragments with a return expression but no pattern fail to build: `match` stays null and is dereferenced. |

## Left out

- `ResultSummaries` (core package) logs driver notifications and plans. It is I/O with no query-construction logic, so it is not part of this model.
- Rendering of the Cypher-DSL objects is not modelled. Conditions, expressions, sort items and statements are plain data. The statement only records the render-constants-as-parameters flag.
- `Neo4jConversionService.convert` and `Cypher.anonParameter` (CypherAdapterUtils.java:156) are taken as the identity. A cursor value is an integer, and a row gives each expression an integer.
- Mapping metadata is given data rather than derived from annotated classes: `getGraphProperty`, `getRequiredPersistentProperty`, `isComposite`, `isInternalIdProperty`, `containsPossibleCircles` and `getIdExpression`. One map stands for both property lookups.
- The reserved names (`__internalNeo4jId__`, `__allProperties__`, `__stable_uniq_sort__`) come from SDN's `Constants`, which is not part of this model.
- `PropertyFilter.from` and `PropertyFilter.contains` (ReturnTuple.java:17, 28) are reduced to a set of (dotted path, type) pairs. `from`'s own handling of the node description is not modelled.
- `CypherGenerator.createReturnStatementForMatch` (StatementBuilderHelper.java:61-63) is reduced to keeping the node's fields that `includeField` accepts (`StatementBuilding.Projection`). The return clause's map projections and related nodes are not modelled.
- `StatementBuilding.Reverse`: `SortItem.accept` is modelled by `Cypher.Visit`, which yields the item, then its expression's segments, then its direction if one is set. The visiting order of the real Cypher-DSL tree is not modelled beyond that.
- `match.where(condition)` with a null condition is left to Cypher-DSL. The statement records the stored `Option<Condition>` as is.
- Getters (`getMatchOn`, `getCondition`, `getOrderBy`, `getLimit`, `getSkip`, `getReturnTuple`, `getDeleteExpression`, `getReturnExpressions`, `isScalarValueReturn`, `requiresReverseSort`, `isRenderConstantsAsParameters`; QueryFragments.java:47-57, 98-104, 118-144) have no members here. Each returns its field, and the model reads the class's fields directly. Every setter's `ensures` states the value the matching getter then returns.
- Aliasing is not modelled. `setMatchOn` and `setReturnExpressions` store the caller's list, so a later `addMatchOn` in Java also changes the caller's list. The model copies values instead.
- `Fragments.QueryFragments.AddMatchOn` always succeeds. In Java, after `setMatchOn` with an unmodifiable list (`List.of(...)`), the `add` at QueryFragments.java:40 throws `UnsupportedOperationException`. The model's lists have no modifiability flag.
- A `null` list passed to `setMatchOn`/`setReturnExpressions` is not modelled: the later `NullPointerException` in `toStatement` is out of scope.
- `Number`/`Long` limits and skips, and the `long` offset and `int` page size of a `Pageable`, are unbounded integers. Overflow is not modelled.
- `CypherAdapter.CombineKeysetIntoCondition` models the code as written at lines 163, 171 and 179-181. The evidently intended behaviour is the separate `KeysetSemantics.CorrectedKeysetCondition`. It conjoins the equalities, compares strictly backward, and compares the id ascending in both directions; see Findings.
- `KeysetSemantics.CorrectedKeysetConditionSelects` and `KeysetSemantics.KeysetConditionSelectsUpToTwoKeys` do not promise "strictly after" or "strictly before" when the cursor carries no `__stable_uniq_sort__` value. `Selected` then also admits the rows equal to the cursor on every key, the cursor row among them, as the code does (`KeysetSemantics.ForwardWithoutTieReselectsCursorRow`).
- `KeysetSemantics.CorrectedKeysetConditionSelects` and `KeysetSemantics.KeysetConditionSelectsUpToTwoKeys` are stated for resumable sorts only. A resumable sort names each graph property once, none of them as `__stable_uniq_sort__`, and the cursor carries a non-null value for each. Sorts that repeat a property, or cursors lacking a key, are described by `OrderedKeysContents` and `KeysetConditionShape` instead.

## Findings

| source | as written | input that shows it | evidently intended | confidence | as-written member | corrected member |
|---|---|---|---|---|---|---|
| src/main/java/org/springframework/data/neo4j/repository/query/CypherAdapterUtils.java:171 | `nextEquals = expression.eq(parameter)` replaces the guard. Each disjunct is then guarded only by the preceding key's equality. | Sort a, b, c ascending; cursor a = 1, b = 1, c = 1; scrolling forward. The condition accepts the row a = 0, b = 1, c = 2, which sorts before the cursor, through `b = 1 AND c > 1`. Backward, it accepts a = 2, b = 1, c = 0. | `nextEquals = nextEquals.and(expression.eq(parameter))`, so that forward scrolling selects exactly the rows lexicographically after the cursor for any number of keys. The two agree for at most two keys. | not executed | KeysetSemantics.KeysetConditionThreeKeysAcceptsEarlierRow | KeysetSemantics.CorrectedKeysetConditionSelects |
| src/main/java/org/springframework/data/neo4j/repository/query/CypherAdapterUtils.java:179-181 | Backward scrolling compares with `lte`/`gte`. The tie-break (line 163) compares with `getComparatorFunction(DESC, BACKWARD)`, which is `gte`. | Sort on age ascending; cursor age = 30, `__stable_uniq_sort__` = 17; scrolling backward. The condition is `age <= 30 OR (age = 30 AND id >= 17)`. It accepts the row with age 30 and id 99, which comes after the cursor, and the cursor row itself: every row with age 30 passes, whatever its id. | Backward comparators `lt`/`gt` and a `<` tie-break, the exact reverse of forward. Backward scrolling then selects exactly the rows strictly before the cursor: here `age < 30 OR (age = 30 AND id < 17)`. | not executed | KeysetSemantics.BackwardAgeAcceptsLaterRows | KeysetSemantics.CorrectedKeysetConditionSelects |
