/**
 * What the keyset condition of `CypherAdapterUtils.combineKeysetIntoCondition` selects.
 *
 * A sort dimension is a `SortKey`: the expression the condition compares, the order's direction
 * and the cursor value. `Selected` is the reference, the sort's lexicographic order with the id
 * (ascending) as the last key: scrolling forward selects the rows strictly after the cursor,
 * scrolling backward the rows strictly before it. When the cursor carries no tie-break value,
 * rows equal to the cursor on every key (the cursor row among them) are selected as well, as the
 * all-equal conjunction of the code selects them.
 *
 * `TableSelects` is what the comparator table of the code reads into the same structure: strictly
 * after forward, but AT OR BEFORE backward, with an id `>=` tie-break.
 *
 * The loop as written keeps, as the equality that guards the next disjunct, only the equality of
 * the key just handled. `FoldCorrected` conjoins all preceding equalities instead, and
 * `IntendedEntries` uses strict backward comparators with an ascending tie-break. Together they
 * select exactly `Selected`, for any number of keys. The code as written agrees with `Selected`
 * forward for at most two regular keys; with three it accepts a row that comes earlier, and
 * backward it accepts rows after the cursor even with one key.
 */
module KeysetSemantics {
  import opened Wrappers
  import opened QueryErrors
  import opened Cypher
  import opened SpringData
  import opened Mapping
  import opened CypherAdapter

  datatype SortKey = SortKey(expression: Expression, direction: Direction, value: Value)

  /** The resolved loop entries of regular keys, comparators chosen by the table as written. */
  function Entries(keys: seq<SortKey>, scroll: ScrollDirection): (es: seq<Entry>)
    ensures |es| == |keys|
  {
    seq(|keys|, i requires 0 <= i < |keys| =>
      Regular(keys[i].expression, GetComparatorFunction(keys[i].direction, scroll), keys[i].value))
  }

  /** The tie-break entry as written, if the cursor carries the additional-sort value. */
  function TieEntries(idExpression: Expression, tie: Option<Value>, scroll: ScrollDirection): seq<Entry>
  {
    match tie
    case None => []
    case Some(t) =>
      [TieBreak(idExpression, GetComparatorFunction(if scroll == Forward then Ascending else Descending, scroll), t)]
  }

  // ---------------------------------------------------------------------------------------------
  // The reference: lexicographic order on the keys
  // ---------------------------------------------------------------------------------------------

  predicate Same(row: Row, k: SortKey) {
    row(k.expression) == k.value
  }

  /** The row comes strictly after the cursor in this key's own direction. */
  predicate After(row: Row, k: SortKey) {
    if k.direction == Ascending then row(k.expression) > k.value else row(k.expression) < k.value
  }

  /** The row comes strictly before the cursor in this key's own direction. */
  predicate Before(row: Row, k: SortKey) {
    if k.direction == Ascending then row(k.expression) < k.value else row(k.expression) > k.value
  }

  predicate SameUpTo(row: Row, keys: seq<SortKey>, i: nat)
    requires i <= |keys|
  {
    forall j :: 0 <= j < i ==> Same(row, keys[j])
  }

  predicate AllSame(row: Row, keys: seq<SortKey>) {
    SameUpTo(row, keys, |keys|)
  }

  /** Lexicographically after: the first key the row differs on, it is after the cursor. */
  predicate LexAfter(row: Row, keys: seq<SortKey>) {
    exists i :: 0 <= i < |keys| && SameUpTo(row, keys, i) && After(row, keys[i])
  }

  /** Lexicographically before: the first key the row differs on, it is before the cursor. */
  predicate LexBefore(row: Row, keys: seq<SortKey>) {
    exists i :: 0 <= i < |keys| && SameUpTo(row, keys, i) && Before(row, keys[i])
  }

  /** The row is selected by the sort's lexicographic order, the id (ascending) breaking ties. */
  predicate Selected(row: Row, keys: seq<SortKey>, idExpression: Expression, tie: Option<Value>, scroll: ScrollDirection) {
    if scroll == Forward then
      LexAfter(row, keys) || (AllSame(row, keys) && (tie.None? || row(idExpression) > tie.value))
    else
      LexBefore(row, keys) || (AllSame(row, keys) && (tie.None? || row(idExpression) < tie.value))
  }

  // ---------------------------------------------------------------------------------------------
  // What the comparator table as written reads
  // ---------------------------------------------------------------------------------------------

  /** The row comes at or before the cursor in this key's own direction. */
  predicate AtOrBefore(row: Row, k: SortKey) {
    if k.direction == Ascending then row(k.expression) <= k.value else row(k.expression) >= k.value
  }

  /** A key's comparison as the table of lines 178-183 makes it. */
  predicate Passes(row: Row, k: SortKey, scroll: ScrollDirection) {
    if scroll == Forward then After(row, k) else AtOrBefore(row, k)
  }

  /** Some key is the first one where the row differs, and the row passes it. */
  predicate DecidedBy(row: Row, keys: seq<SortKey>, scroll: ScrollDirection) {
    exists i :: 0 <= i < |keys| && SameUpTo(row, keys, i) && Passes(row, keys[i], scroll)
  }

  /** The tie-break on the id as line 163 makes it: after the cursor forward, at or beyond it backward. */
  predicate TiePasses(row: Row, idExpression: Expression, tie: Option<Value>, scroll: ScrollDirection) {
    match tie
    case None => true
    case Some(t) => if scroll == Forward then row(idExpression) > t else row(idExpression) >= t
  }

  predicate TableSelects(row: Row, keys: seq<SortKey>, idExpression: Expression, tie: Option<Value>, scroll: ScrollDirection) {
    DecidedBy(row, keys, scroll) || (AllSame(row, keys) && TiePasses(row, idExpression, tie, scroll))
  }

  /** Forward, the table's reading is the lexicographic reference. */
  lemma ForwardTableSelects(row: Row, keys: seq<SortKey>, idExpression: Expression, tie: Option<Value>)
    ensures TableSelects(row, keys, idExpression, tie, Forward) <==> Selected(row, keys, idExpression, tie, Forward)
  {
    assert DecidedBy(row, keys, Forward) <==> LexAfter(row, keys);
  }

  /**
   * Scrolling backward, the table's reading only looks at the first key, inclusively: a row equal
   * on an earlier key is at or before it, so every later disjunct implies the first one.
   */
  lemma BackwardSelectsByFirstKey(row: Row, keys: seq<SortKey>, idExpression: Expression, tie: Option<Value>)
    ensures TableSelects(row, keys, idExpression, tie, Backward)
            <==> if keys == [] then TiePasses(row, idExpression, tie, Backward) else AtOrBefore(row, keys[0])
  {
    if keys != [] {
      if DecidedBy(row, keys, Backward) {
        var i :| 0 <= i < |keys| && SameUpTo(row, keys, i) && Passes(row, keys[i], Backward);
        if i > 0 {
          assert Same(row, keys[0]);
        }
      }
      if AtOrBefore(row, keys[0]) {
        assert SameUpTo(row, keys, 0) && Passes(row, keys[0], Backward);
      }
      if AllSame(row, keys) {
        assert Same(row, keys[0]);
      }
    }
  }

  // ---------------------------------------------------------------------------------------------
  // The corrected fold
  // ---------------------------------------------------------------------------------------------

  /** Like `Step`, but the guarding equality conjoins every preceding regular key's equality. */
  function StepCorrected(acc: Accumulators, entry: Entry): Accumulators
  {
    match entry
    case TieBreak(x, c, v) =>
      acc.(allEqualsWithArtificialSort := AndC(acc.allEqualsWithArtificialSort, Cmp(c, x, v)))
    case Regular(x, c, v) =>
      Accumulators(OrC(acc.resultingCondition, AndC(acc.nextEquals, Cmp(c, x, v))),
                   AndC(acc.nextEquals, Eq(x, v)),
                   AndC(acc.allEqualsWithArtificialSort, Eq(x, v)))
  }

  function FoldCorrected(entries: seq<Entry>): Accumulators
    decreases |entries|
  {
    if entries == [] then Initial
    else StepCorrected(FoldCorrected(entries[..|entries| - 1]), entries[|entries| - 1])
  }

  lemma EntryCmpHolds(k: SortKey, scroll: ScrollDirection, row: Row)
    ensures Holds(Cmp(GetComparatorFunction(k.direction, scroll), k.expression, k.value), row) <==> Passes(row, k, scroll)
  {
    ComparatorSemantics(k.direction, row(k.expression), k.value);
  }

  lemma EntriesPrefix(keys: seq<SortKey>, scroll: ScrollDirection, n: nat)
    requires n <= |keys|
    ensures Entries(keys, scroll)[..n] == Entries(keys[..n], scroll)
  {
  }

  lemma DecidedByAppend(row: Row, init: seq<SortKey>, k: SortKey, scroll: ScrollDirection)
    ensures DecidedBy(row, init + [k], scroll)
            <==> DecidedBy(row, init, scroll) || (AllSame(row, init) && Passes(row, k, scroll))
    ensures AllSame(row, init + [k]) <==> AllSame(row, init) && Same(row, k)
  {
    var keys := init + [k];
    assert forall i :: 0 <= i <= |init| ==> (SameUpTo(row, keys, i) <==> SameUpTo(row, init, i)) by {
      forall i | 0 <= i <= |init| ensures SameUpTo(row, keys, i) <==> SameUpTo(row, init, i) {
        assert forall j :: 0 <= j < i ==> keys[j] == init[j];
      }
    }
    if DecidedBy(row, keys, scroll) {
      var i :| 0 <= i < |keys| && SameUpTo(row, keys, i) && Passes(row, keys[i], scroll);
      if i < |init| {
        assert SameUpTo(row, init, i) && Passes(row, init[i], scroll);
      }
    }
    if DecidedBy(row, init, scroll) {
      var i :| 0 <= i < |init| && SameUpTo(row, init, i) && Passes(row, init[i], scroll);
      assert SameUpTo(row, keys, i) && Passes(row, keys[i], scroll);
    }
    if AllSame(row, init) && Passes(row, k, scroll) {
      assert SameUpTo(row, keys, |init|) && Passes(row, keys[|init|], scroll);
    }
  }

  /** Over regular keys only, the corrected fold peeled by its last key. */
  lemma CorrectedLastKey(keys: seq<SortKey>, scroll: ScrollDirection)
    requires keys != []
    ensures var k := keys[|keys| - 1];
      var a := FoldCorrected(Entries(keys[..|keys| - 1], scroll));
      FoldCorrected(Entries(keys, scroll))
        == StepCorrected(a, Regular(k.expression, GetComparatorFunction(k.direction, scroll), k.value))
  {
    EntriesPrefix(keys, scroll, |keys| - 1);
  }

  /**
   * Over regular keys only, the guarding equality is the all-equal conjunction, and both it and the
   * disjunction are empty exactly when there is no key.
   */
  lemma {:induction false} CorrectedShape(keys: seq<SortKey>, scroll: ScrollDirection)
    ensures var a := FoldCorrected(Entries(keys, scroll));
      && a.nextEquals == a.allEqualsWithArtificialSort
      && (a.nextEquals == NoCondition <==> keys == [])
      && (a.resultingCondition == NoCondition <==> keys == [])
    decreases |keys|
  {
    if keys != [] {
      CorrectedLastKey(keys, scroll);
      CorrectedShape(keys[..|keys| - 1], scroll);
    }
  }

  /** The guarding equality holds exactly on rows equal to the cursor on every key. */
  lemma {:induction false} CorrectedEqualities(keys: seq<SortKey>, scroll: ScrollDirection, row: Row)
    ensures Holds(FoldCorrected(Entries(keys, scroll)).nextEquals, row) <==> AllSame(row, keys)
    decreases |keys|
  {
    if keys != [] {
      var init := keys[..|keys| - 1];
      var k := keys[|keys| - 1];
      CorrectedLastKey(keys, scroll);
      CorrectedEqualities(init, scroll, row);
      AndCHolds(FoldCorrected(Entries(init, scroll)).nextEquals, Eq(k.expression, k.value), row);
      assert keys == init + [k];
      DecidedByAppend(row, init, k, scroll);
    }
  }

  /** The disjunction holds exactly on rows that some key decides. */
  lemma {:induction false} CorrectedDisjunction(keys: seq<SortKey>, scroll: ScrollDirection, row: Row)
    requires keys != []
    ensures Holds(FoldCorrected(Entries(keys, scroll)).resultingCondition, row) <==> DecidedBy(row, keys, scroll)
    decreases |keys|
  {
    var init := keys[..|keys| - 1];
    var k := keys[|keys| - 1];
    var a := FoldCorrected(Entries(init, scroll));
    var cmp := Cmp(GetComparatorFunction(k.direction, scroll), k.expression, k.value);
    CorrectedLastKey(keys, scroll);
    CorrectedShape(init, scroll);
    CorrectedEqualities(init, scroll, row);
    EntryCmpHolds(k, scroll, row);
    AndCHolds(a.nextEquals, cmp, row);
    assert keys == init + [k];
    DecidedByAppend(row, init, k, scroll);
    if init != [] {
      CorrectedDisjunction(init, scroll, row);
      OrCHolds(a.resultingCondition, AndC(a.nextEquals, cmp), row);
    } else {
      assert !DecidedBy(row, init, scroll);
    }
  }

  lemma TieCmpHolds(idExpression: Expression, t: Value, scroll: ScrollDirection, row: Row)
    ensures var c := GetComparatorFunction(if scroll == Forward then Ascending else Descending, scroll);
      Holds(Cmp(c, idExpression, t), row) <==> TiePasses(row, idExpression, Some(t), scroll)
  {
  }

  /** The corrected condition selects exactly `Selected`, for any number of keys. */
  lemma ConjoinedFoldSelects(keys: seq<SortKey>, idExpression: Expression, tie: Option<Value>, scroll: ScrollDirection, row: Row)
    ensures Holds(Combined(FoldCorrected(Entries(keys, scroll) + TieEntries(idExpression, tie, scroll))), row)
            <==> TableSelects(row, keys, idExpression, tie, scroll)
  {
    var es := Entries(keys, scroll);
    CorrectedShape(keys, scroll);
    CorrectedEqualities(keys, scroll, row);
    if keys != [] {
      CorrectedDisjunction(keys, scroll, row);
    }
    var a := FoldCorrected(es);
    match tie
    case None =>
      assert es + TieEntries(idExpression, tie, scroll) == es;
      if keys != [] {
        OrCHolds(a.resultingCondition, a.allEqualsWithArtificialSort, row);
      }
    case Some(t) =>
      var c := GetComparatorFunction(if scroll == Forward then Ascending else Descending, scroll);
      var tieCmp := Cmp(c, idExpression, t);
      assert es + TieEntries(idExpression, tie, scroll) == es + [TieBreak(idExpression, c, t)];
      FoldCorrectedAppend(es, TieBreak(idExpression, c, t));
      var all := AndC(a.allEqualsWithArtificialSort, tieCmp);
      AndCHolds(a.allEqualsWithArtificialSort, tieCmp, row);
      TieCmpHolds(idExpression, t, scroll, row);
      if keys != [] {
        OrCHolds(a.resultingCondition, all, row);
      }
  }

  // ---------------------------------------------------------------------------------------------
  // The fold as written
  // ---------------------------------------------------------------------------------------------

  lemma FoldCorrectedAppend(entries: seq<Entry>, entry: Entry)
    ensures FoldCorrected(entries + [entry]) == StepCorrected(FoldCorrected(entries), entry)
  {
    assert (entries + [entry])[..|entries|] == entries;
  }

  /** Over at most two regular keys, both folds build the same disjunction and all-equal conjunction. */
  lemma RegularFoldsAgreeUpToTwoKeys(keys: seq<SortKey>, scroll: ScrollDirection)
    requires |keys| <= 2
    ensures Fold(Entries(keys, scroll)).resultingCondition == FoldCorrected(Entries(keys, scroll)).resultingCondition
    ensures Fold(Entries(keys, scroll)).allEqualsWithArtificialSort
            == FoldCorrected(Entries(keys, scroll)).allEqualsWithArtificialSort
  {
    var es := Entries(keys, scroll);
    if |keys| >= 1 {
      FoldAppend([], es[0]);
      FoldCorrectedAppend([], es[0]);
      assert [] + [es[0]] == [es[0]];
      if |keys| == 1 {
        assert es == [es[0]];
      } else {
        FoldAppend([es[0]], es[1]);
        FoldCorrectedAppend([es[0]], es[1]);
        assert es == [es[0]] + [es[1]];
      }
    }
  }

  /** With at most two regular keys, replacing the guarding equality loses nothing. */
  lemma AsWrittenAgreesUpToTwoKeys(keys: seq<SortKey>, idExpression: Expression, tie: Option<Value>, scroll: ScrollDirection)
    requires |keys| <= 2
    ensures var es := Entries(keys, scroll) + TieEntries(idExpression, tie, scroll);
      Combined(Fold(es)) == Combined(FoldCorrected(es))
  {
    var es := Entries(keys, scroll);
    RegularFoldsAgreeUpToTwoKeys(keys, scroll);
    match tie
    case None =>
      assert es + TieEntries(idExpression, tie, scroll) == es;
    case Some(t) =>
      var tieEntry := TieEntries(idExpression, tie, scroll)[0];
      assert es + TieEntries(idExpression, tie, scroll) == es + [tieEntry];
      FoldAppend(es, tieEntry);
      FoldCorrectedAppend(es, tieEntry);
  }

  lemma AsWrittenSelectsUpToTwoKeys(keys: seq<SortKey>, idExpression: Expression, tie: Option<Value>, scroll: ScrollDirection, row: Row)
    requires |keys| <= 2
    ensures Holds(Combined(Fold(Entries(keys, scroll) + TieEntries(idExpression, tie, scroll))), row)
            <==> TableSelects(row, keys, idExpression, tie, scroll)
  {
    AsWrittenAgreesUpToTwoKeys(keys, idExpression, tie, scroll);
    ConjoinedFoldSelects(keys, idExpression, tie, scroll, row);
  }

  const KeyA: Expression := Property("n", ["a"])
  const KeyB: Expression := Property("n", ["b"])
  const KeyC: Expression := Property("n", ["c"])

  /** Three ascending keys, cursor (1, 1, 1). */
  const ThreeKeys: seq<SortKey> := [SortKey(KeyA, Ascending, 1), SortKey(KeyB, Ascending, 1), SortKey(KeyC, Ascending, 1)]

  /**
   * Scrolling forward from (1, 1, 1), the row (0, 1, 2) comes earlier, yet the condition as
   * written accepts it through its third disjunct `b = 1 AND c > 1`; the corrected one does not.
   */
  lemma ThreeKeysForwardAcceptsEarlierRow()
    ensures var row: Row := e => if e == KeyA then 0 else if e == KeyB then 1 else 2;
      var es := Entries(ThreeKeys, Forward);
      && Holds(Combined(Fold(es)), row)
      && !TableSelects(row, ThreeKeys, Opaque("id"), None, Forward)
      && !Selected(row, ThreeKeys, Opaque("id"), None, Forward)
      && !Holds(Combined(FoldCorrected(es)), row)
  {
    var row: Row := e => if e == KeyA then 0 else if e == KeyB then 1 else 2;
    var es := Entries(ThreeKeys, Forward);
    assert es == [Regular(KeyA, Gt, 1), Regular(KeyB, Gt, 1), Regular(KeyC, Gt, 1)];
    assert es[..2][..1][..0] == [] && es[..2][..1] == [es[0]] && es[..2] == [es[0], es[1]];
    assert Holds(Combined(Fold(es)), row);
    assert !Same(row, ThreeKeys[0]) && !After(row, ThreeKeys[0]);
    assert es + TieEntries(Opaque("id"), None, Forward) == es;
    ConjoinedFoldSelects(ThreeKeys, Opaque("id"), None, Forward, row);
    ForwardTableSelects(row, ThreeKeys, Opaque("id"), None);
  }

  /**
   * Scrolling backward from (1, 1, 1), the row (2, 1, 0) comes later on the first key, yet the
   * condition as written accepts it through `b = 1 AND c <= 1`.
   */
  lemma ThreeKeysBackwardAcceptsLaterRow()
    ensures var row: Row := e => if e == KeyA then 2 else if e == KeyB then 1 else 0;
      var es := Entries(ThreeKeys, Backward);
      && Holds(Combined(Fold(es)), row)
      && !TableSelects(row, ThreeKeys, Opaque("id"), None, Backward)
      && !Selected(row, ThreeKeys, Opaque("id"), None, Backward)
  {
    var row: Row := e => if e == KeyA then 2 else if e == KeyB then 1 else 0;
    var es := Entries(ThreeKeys, Backward);
    assert es == [Regular(KeyA, Lte, 1), Regular(KeyB, Lte, 1), Regular(KeyC, Lte, 1)];
    assert es[..2][..1][..0] == [] && es[..2][..1] == [es[0]] && es[..2] == [es[0], es[1]];
    assert Holds(Combined(Fold(es)), row);
    BackwardSelectsByFirstKey(row, ThreeKeys, Opaque("id"), None);
    assert !Same(row, ThreeKeys[0]) && !Before(row, ThreeKeys[0]);
  }

  // ---------------------------------------------------------------------------------------------
  // The intended comparators: strict backward comparisons, the id tie-break ascending
  // ---------------------------------------------------------------------------------------------

  /** The table of lines 178-183 with strict backward comparisons, the exact reverse of forward. */
  function IntendedComparator(sortDirection: Direction, scrollDirection: ScrollDirection): Comparator
  {
    if scrollDirection == Backward then (if sortDirection.IsAscending() then Lt else Gt)
    else GetComparatorFunction(sortDirection, scrollDirection)
  }

  /** The strict form of a comparator. */
  function Strict(c: Comparator): Comparator
  {
    if c == Lte then Lt else if c == Gte then Gt else c
  }

  /** Making the table's comparator strict gives the intended one, for every cell. */
  lemma StrictTable(sortDirection: Direction, scrollDirection: ScrollDirection)
    ensures Strict(GetComparatorFunction(sortDirection, scrollDirection)) == IntendedComparator(sortDirection, scrollDirection)
  {
  }

  function IntendedEntries(keys: seq<SortKey>, scroll: ScrollDirection): (es: seq<Entry>)
    ensures |es| == |keys|
  {
    seq(|keys|, i requires 0 <= i < |keys| =>
      Regular(keys[i].expression, IntendedComparator(keys[i].direction, scroll), keys[i].value))
  }

  /** The tie-break on the id, compared ascending in both scroll directions. */
  function IntendedTieEntries(idExpression: Expression, tie: Option<Value>, scroll: ScrollDirection): seq<Entry>
  {
    match tie
    case None => []
    case Some(t) => [TieBreak(idExpression, IntendedComparator(Ascending, scroll), t)]
  }

  /** The key sorted the other way. */
  function Flip(k: SortKey): SortKey {
    k.(direction := if k.direction == Ascending then Descending else Ascending)
  }

  function FlipAll(keys: seq<SortKey>): (r: seq<SortKey>)
    ensures |r| == |keys|
  {
    seq(|keys|, i requires 0 <= i < |keys| => Flip(keys[i]))
  }

  /** Scrolling backward through the intended table is scrolling forward over the flipped keys. */
  lemma IntendedBackwardIsFlippedForward(keys: seq<SortKey>, row: Row)
    ensures IntendedEntries(keys, Backward) == Entries(FlipAll(keys), Forward)
    ensures LexBefore(row, keys) <==> DecidedBy(row, FlipAll(keys), Forward)
    ensures AllSame(row, FlipAll(keys)) <==> AllSame(row, keys)
  {
    var fk := FlipAll(keys);
    assert forall j :: 0 <= j < |keys| ==> (Same(row, fk[j]) <==> Same(row, keys[j]));
    assert forall i :: 0 <= i <= |keys| ==> (SameUpTo(row, fk, i) <==> SameUpTo(row, keys, i));
    if LexBefore(row, keys) {
      var i :| 0 <= i < |keys| && SameUpTo(row, keys, i) && Before(row, keys[i]);
      assert SameUpTo(row, fk, i) && Passes(row, fk[i], Forward);
    }
    if DecidedBy(row, fk, Forward) {
      var i :| 0 <= i < |fk| && SameUpTo(row, fk, i) && Passes(row, fk[i], Forward);
      assert SameUpTo(row, keys, i) && Before(row, keys[i]);
    }
  }

  /**
   * The conjoined fold over the intended entries selects exactly `Selected`, in both scroll
   * directions and for any number of keys.
   */
  lemma IntendedConditionSelects(keys: seq<SortKey>, idExpression: Expression, tie: Option<Value>, scroll: ScrollDirection, row: Row)
    ensures Holds(Combined(FoldCorrected(IntendedEntries(keys, scroll) + IntendedTieEntries(idExpression, tie, scroll))), row)
            <==> Selected(row, keys, idExpression, tie, scroll)
  {
    if scroll == Forward {
      assert IntendedEntries(keys, Forward) == Entries(keys, Forward);
      assert IntendedTieEntries(idExpression, tie, Forward) == TieEntries(idExpression, tie, Forward);
      ConjoinedFoldSelects(keys, idExpression, tie, Forward, row);
      ForwardTableSelects(row, keys, idExpression, tie);
    } else {
      var fk := FlipAll(keys);
      IntendedBackwardIsFlippedForward(keys, row);
      var es := Entries(fk, Forward);
      CorrectedShape(fk, Forward);
      CorrectedEqualities(fk, Forward, row);
      if keys != [] {
        CorrectedDisjunction(fk, Forward, row);
      }
      var a := FoldCorrected(es);
      match tie
      case None =>
        assert es + IntendedTieEntries(idExpression, tie, Backward) == es;
        if keys != [] {
          OrCHolds(a.resultingCondition, a.allEqualsWithArtificialSort, row);
        }
      case Some(t) =>
        var tieCmp := Cmp(Lt, idExpression, t);
        assert es + IntendedTieEntries(idExpression, tie, Backward) == es + [TieBreak(idExpression, Lt, t)];
        FoldCorrectedAppend(es, TieBreak(idExpression, Lt, t));
        AndCHolds(a.allEqualsWithArtificialSort, tieCmp, row);
        if keys != [] {
          OrCHolds(a.resultingCondition, AndC(a.allEqualsWithArtificialSort, tieCmp), row);
        }
    }
  }

  /**
   * A resolved entry with the intended comparator: a regular key's comparator made strict, the
   * tie-break compared ascending.
   */
  function IntendedEntry(e: Entry, scroll: ScrollDirection): Entry
  {
    match e
    case Regular(x, c, v) => Regular(x, Strict(c), v)
    case TieBreak(x, _, v) => TieBreak(x, IntendedComparator(Ascending, scroll), v)
  }

  function IntendedOf(es: seq<Entry>, scroll: ScrollDirection): (r: seq<Entry>)
    ensures |r| == |es|
  {
    seq(|es|, i requires 0 <= i < |es| => IntendedEntry(es[i], scroll))
  }

  /** Applied to the entries the table gives, `IntendedOf` gives the intended entries. */
  lemma IntendedOfTable(keys: seq<SortKey>, idExpression: Expression, tie: Option<Value>, scroll: ScrollDirection)
    ensures IntendedOf(Entries(keys, scroll) + TieEntries(idExpression, tie, scroll), scroll)
            == IntendedEntries(keys, scroll) + IntendedTieEntries(idExpression, tie, scroll)
  {
    var es := Entries(keys, scroll) + TieEntries(idExpression, tie, scroll);
    var expected := IntendedEntries(keys, scroll) + IntendedTieEntries(idExpression, tie, scroll);
    forall i | 0 <= i < |keys|
      ensures IntendedOf(es, scroll)[i] == expected[i]
    {
      StrictTable(keys[i].direction, scroll);
    }
  }

  // ---------------------------------------------------------------------------------------------
  // From an entity, a cursor and a sort to the keys
  // ---------------------------------------------------------------------------------------------

  /** The cursor's additional-sort value, if it carries a non-null one. */
  function TieValue(pos: KeysetScrollPosition): Option<Value>
  {
    if NameOfAdditionalSort in pos.keys && pos.keys[NameOfAdditionalSort].Present?
    then Some(pos.keys[NameOfAdditionalSort].value) else None
  }

  /**
   * A sort the cursor can resume: every property is known, each graph name occurs once and is
   * not the reserved name, and the cursor has a non-null value for each of them and, if it has
   * one, for the additional-sort key.
   */
  predicate Resumable(entity: NodeDescription, pos: KeysetScrollPosition, sort: Sort)
  {
    && (forall i :: 0 <= i < |sort| ==> sort[i].property in entity.properties)
    && Distinct(PropertyNames(entity, sort))
    && NameOfAdditionalSort !in PropertyNames(entity, sort)
    && (forall i :: 0 <= i < |sort| ==>
          PropertyNames(entity, sort)[i] in pos.keys && pos.keys[PropertyNames(entity, sort)[i]].Present?)
    && (NameOfAdditionalSort in pos.keys ==> pos.keys[NameOfAdditionalSort].Present?)
  }

  /** Each order as a key: the id expression or `root.property(name)`, its direction, the cursor value. */
  function SortKeys(entity: NodeDescription, pos: KeysetScrollPosition, sort: Sort): (keys: seq<SortKey>)
    requires Resumable(entity, pos, sort)
    ensures |keys| == |sort|
  {
    seq(|sort|, i requires 0 <= i < |sort| =>
      var p := entity.properties[sort[i].property];
      assert p.propertyName == PropertyNames(entity, sort)[i];
      SortKey(if p.isIdProperty then entity.idExpression else Property(entity.rootName, [p.propertyName]),
              sort[i].direction,
              pos.keys[p.propertyName].value))
  }

  lemma {:induction false} PresentNamesAll(names: seq<string>, incoming: map<string, CursorValue>)
    requires forall k :: k in names ==> k in incoming
    ensures PresentNames(names, incoming) == names
    decreases |names|
  {
    if names != [] {
      var init := names[..|names| - 1];
      assert names == init + [names[|names| - 1]];
      assert forall k :: k in init ==> k in names;
      PresentNamesAll(init, incoming);
      assert names[|names| - 1] in incoming;
      assert PresentNames(names, incoming) == PresentNames(init, incoming) + [names[|names| - 1]];
      assert names == init + [names[|names| - 1]];
    }
  }

  /**
   * For a resumable sort, the ordered keys are the sort's names with their values, then the
   * additional-sort key if the cursor has it, and each name maps to its own order.
   */
  lemma OrderedKeysOfResumableSort(entity: NodeDescription, pos: KeysetScrollPosition, sort: Sort)
    requires Resumable(entity, pos, sort)
    ensures OrderedKeys(entity, pos, sort).Success?
    ensures var c := OrderedKeys(entity, pos, sort).value;
      var names := PropertyNames(entity, sort);
      && c.orderedKeys == Pairs(pos.keys, names)
           + (if NameOfAdditionalSort in pos.keys then [(NameOfAdditionalSort, pos.keys[NameOfAdditionalSort])] else [])
      && forall i :: 0 <= i < |sort| ==>
           names[i] in c.propertyAndDirection
           && c.propertyAndDirection[names[i]] == PropertyAndOrder(entity.properties[sort[i].property], sort[i])
  {
    var names := PropertyNames(entity, sort);
    OrderedKeysOfDistinctSort(entity, pos, sort);
    assert forall k :: k in names ==> k in pos.keys;
    PresentNamesAll(names, pos.keys);
    CollectKeysLastOrderWins(entity, pos.keys, sort);
  }

  lemma ResolvedEntryAt(entity: NodeDescription, pos: KeysetScrollPosition, pad: map<string, PropertyAndOrder>, sort: Sort, i: nat)
    requires Resumable(entity, pos, sort) && i < |sort|
    requires var name := PropertyNames(entity, sort)[i];
      name in pad && pad[name] == PropertyAndOrder(entity.properties[sort[i].property], sort[i])
    ensures var name := PropertyNames(entity, sort)[i];
      ResolveEntry(entity, pos, pad, (name, pos.keys[name])) == Success(Entries(SortKeys(entity, pos, sort), pos.direction)[i])
  {
    assert PropertyNames(entity, sort)[i] in PropertyNames(entity, sort);
  }

  /**
   * For a resumable sort, the loop resolves one regular entry per order, in sort order, followed
   * by the tie-break exactly when the cursor carries the additional-sort value.
   */
  lemma ResolvedEntriesOfResumableSort(entity: NodeDescription, pos: KeysetScrollPosition, sort: Sort)
    requires Resumable(entity, pos, sort)
    ensures OrderedKeys(entity, pos, sort).Success?
    ensures var c := OrderedKeys(entity, pos, sort).value;
      ResolveAll(entity, pos, c.propertyAndDirection, c.orderedKeys)
        == Success(Entries(SortKeys(entity, pos, sort), pos.direction) + TieEntries(entity.idExpression, TieValue(pos), pos.direction))
  {
    var names := PropertyNames(entity, sort);
    OrderedKeysOfResumableSort(entity, pos, sort);
    var c := OrderedKeys(entity, pos, sort).value;
    var pad := c.propertyAndDirection;
    var keys := c.orderedKeys;
    ResolveAllMeaning(entity, pos, pad, keys);
    assert forall i :: 0 <= i < |keys| ==> keys[i].1.Present?;
    var es := ResolveAll(entity, pos, pad, keys).value;
    var regular := Entries(SortKeys(entity, pos, sort), pos.direction);
    var expected := regular + TieEntries(entity.idExpression, TieValue(pos), pos.direction);
    assert |es| == |expected|;
    forall i | 0 <= i < |es|
      ensures es[i] == expected[i]
    {
      if i < |sort| {
        assert keys[i] == (names[i], pos.keys[names[i]]);
        ResolvedEntryAt(entity, pos, pad, sort, i);
        assert expected[i] == regular[i];
      } else {
        assert keys[i] == (NameOfAdditionalSort, pos.keys[NameOfAdditionalSort]);
      }
    }
    assert es == expected;
  }

  /**
   * `KeysetCondition` as intended: every preceding equality conjoined (line 171), strict backward
   * comparators (lines 179-181) and the id tie-break compared ascending (line 163).
   */
  function CorrectedKeysetCondition(entity: NodeDescription, pos: KeysetScrollPosition, sort: Sort): Result<Condition, Error>
  {
    match OrderedKeys(entity, pos, sort)
    case Failure(e) => Failure(e)
    case Success(c) =>
      match ResolveAll(entity, pos, c.propertyAndDirection, c.orderedKeys)
      case Failure(e) => Failure(e)
      case Success(entries) => Success(Combined(FoldCorrected(IntendedOf(entries, pos.direction))))
  }

  /**
   * For every resumable sort, the corrected condition selects exactly the rows strictly after the
   * cursor in the sort's lexicographic order (forward) or strictly before it (backward), the id
   * deciding among rows equal on every key; with no tie-break value those rows are all selected.
   */
  lemma CorrectedKeysetConditionSelects(entity: NodeDescription, pos: KeysetScrollPosition, sort: Sort, row: Row)
    requires Resumable(entity, pos, sort)
    ensures CorrectedKeysetCondition(entity, pos, sort).Success?
    ensures Holds(CorrectedKeysetCondition(entity, pos, sort).value, row)
            <==> Selected(row, SortKeys(entity, pos, sort), entity.idExpression, TieValue(pos), pos.direction)
  {
    ResolvedEntriesOfResumableSort(entity, pos, sort);
    IntendedOfTable(SortKeys(entity, pos, sort), entity.idExpression, TieValue(pos), pos.direction);
    IntendedConditionSelects(SortKeys(entity, pos, sort), entity.idExpression, TieValue(pos), pos.direction, row);
  }

  /**
   * With at most two sort orders, the condition as written selects exactly what the comparator
   * table reads, which forward is the lexicographic reference.
   */
  lemma KeysetConditionSelectsUpToTwoKeys(entity: NodeDescription, pos: KeysetScrollPosition, sort: Sort, row: Row)
    requires Resumable(entity, pos, sort) && |sort| <= 2
    ensures KeysetCondition(entity, pos, sort).Success?
    ensures Holds(KeysetCondition(entity, pos, sort).value, row)
            <==> TableSelects(row, SortKeys(entity, pos, sort), entity.idExpression, TieValue(pos), pos.direction)
    ensures pos.direction == Forward ==>
      (Holds(KeysetCondition(entity, pos, sort).value, row)
       <==> Selected(row, SortKeys(entity, pos, sort), entity.idExpression, TieValue(pos), Forward))
  {
    ResolvedEntriesOfResumableSort(entity, pos, sort);
    AsWrittenSelectsUpToTwoKeys(SortKeys(entity, pos, sort), entity.idExpression, TieValue(pos), pos.direction, row);
    ForwardTableSelects(row, SortKeys(entity, pos, sort), entity.idExpression, TieValue(pos));
  }

  // ---------------------------------------------------------------------------------------------
  // Scenarios
  // ---------------------------------------------------------------------------------------------

  function Plain(name: string): GraphProperty {
    GraphProperty(name, false, false, false, true, false)
  }

  const IdOfN: Expression := Opaque("id(n)")

  const Person: NodeDescription :=
    NodeDescription("n", map["age" := Plain("age")], false, IdOfN, [])

  function AgeCursor(direction: ScrollDirection): KeysetScrollPosition {
    KeysetScrollPosition(map["age" := Present(30), NameOfAdditionalSort := Present(17)], direction)
  }

  const Age: Expression := Property("n", ["age"])

  const AgeSort: Sort := [Order("age", Ascending, false)]

  lemma AgeSortKeys(direction: ScrollDirection)
    ensures Resumable(Person, AgeCursor(direction), AgeSort)
    ensures SortKeys(Person, AgeCursor(direction), AgeSort) == [SortKey(Age, Ascending, 30)]
    ensures TieValue(AgeCursor(direction)) == Some(17)
  {
    assert PropertyNames(Person, AgeSort) == ["age"];
  }

  /** The keyset condition of the age sort is the fold of its regular entry and then its tie-break. */
  lemma AgeCondition(direction: ScrollDirection)
    ensures var ageEntry := Regular(Age, GetComparatorFunction(Ascending, direction), 30);
      var tieEntry := TieBreak(IdOfN, GetComparatorFunction(if direction == Forward then Ascending else Descending, direction), 17);
      KeysetCondition(Person, AgeCursor(direction), AgeSort) == Success(Combined(Step(Step(Initial, ageEntry), tieEntry)))
  {
    AgeSortKeys(direction);
    ResolvedEntriesOfResumableSort(Person, AgeCursor(direction), AgeSort);
    var ageEntry := Regular(Age, GetComparatorFunction(Ascending, direction), 30);
    var tieEntry := TieBreak(IdOfN, GetComparatorFunction(if direction == Forward then Ascending else Descending, direction), 17);
    assert Entries([SortKey(Age, Ascending, 30)], direction) == [ageEntry];
    assert [ageEntry] + TieEntries(IdOfN, Some(17), direction) == [ageEntry] + [tieEntry];
    FoldAppend([], ageEntry);
    assert [] + [ageEntry] == [ageEntry];
    FoldAppend([ageEntry], tieEntry);
  }

  /** Sort by age ascending, cursor age 30 and id 17, forward: `age > 30 OR (age = 30 AND id > 17)`. */
  lemma ForwardAgeScenario()
    ensures KeysetCondition(Person, AgeCursor(Forward), AgeSort)
            == Success(Or(Cmp(Gt, Age, 30), And(Eq(Age, 30), Cmp(Gt, IdOfN, 17))))
  {
    AgeCondition(Forward);
  }

  /**
   * The same sort and cursor, backward: `age <= 30 OR (age = 30 AND id >= 17)`, so every row with
   * age 30 is selected whatever its id.
   */
  lemma BackwardAgeScenario()
    ensures KeysetCondition(Person, AgeCursor(Backward), AgeSort)
            == Success(Or(Cmp(Lte, Age, 30), And(Eq(Age, 30), Cmp(Gte, IdOfN, 17))))
  {
    AgeCondition(Backward);
  }

  const Triple: NodeDescription :=
    NodeDescription("n", map["a" := Plain("a"), "b" := Plain("b"), "c" := Plain("c")], false, IdOfN, [])

  const TripleSort: Sort := [Order("a", Ascending, false), Order("b", Ascending, false), Order("c", Ascending, false)]

  const TripleCursor: KeysetScrollPosition :=
    KeysetScrollPosition(map["a" := Present(1), "b" := Present(1), "c" := Present(1)], Forward)

  lemma TripleSortKeys()
    ensures Resumable(Triple, TripleCursor, TripleSort)
    ensures SortKeys(Triple, TripleCursor, TripleSort) == ThreeKeys
    ensures TieValue(TripleCursor) == None
  {
    assert PropertyNames(Triple, TripleSort) == ["a", "b", "c"];
  }

  /**
   * Sorting by a, b, c ascending and scrolling forward from (1, 1, 1), the condition the method
   * returns accepts the row (0, 1, 2), which comes before the cursor.
   */
  lemma KeysetConditionThreeKeysAcceptsEarlierRow()
    ensures KeysetCondition(Triple, TripleCursor, TripleSort).Success?
    ensures var row: Row := e => if e == KeyA then 0 else if e == KeyB then 1 else 2;
      && Holds(KeysetCondition(Triple, TripleCursor, TripleSort).value, row)
      && !Holds(CorrectedKeysetCondition(Triple, TripleCursor, TripleSort).value, row)
  {
    TripleSortKeys();
    ResolvedEntriesOfResumableSort(Triple, TripleCursor, TripleSort);
    var es := Entries(ThreeKeys, Forward);
    assert es + TieEntries(IdOfN, None, Forward) == es;
    assert KeysetCondition(Triple, TripleCursor, TripleSort) == Success(Combined(Fold(es)));
    IntendedOfTable(ThreeKeys, IdOfN, None, Forward);
    assert IntendedEntries(ThreeKeys, Forward) == es;
    assert IntendedOf(es, Forward) == es;
    assert CorrectedKeysetCondition(Triple, TripleCursor, TripleSort) == Success(Combined(FoldCorrected(es)));
    ThreeKeysForwardAcceptsEarlierRow();
  }

  /**
   * The same sort and cursor, backward, with the intended comparators:
   * `age < 30 OR (age = 30 AND id < 17)`.
   */
  lemma CorrectedBackwardAgeScenario()
    ensures CorrectedKeysetCondition(Person, AgeCursor(Backward), AgeSort)
            == Success(Or(Cmp(Lt, Age, 30), And(Eq(Age, 30), Cmp(Lt, IdOfN, 17))))
  {
    AgeSortKeys(Backward);
    ResolvedEntriesOfResumableSort(Person, AgeCursor(Backward), AgeSort);
    IntendedOfTable([SortKey(Age, Ascending, 30)], IdOfN, Some(17), Backward);
    var ageEntry := Regular(Age, Lt, 30);
    var tieEntry := TieBreak(IdOfN, Lt, 17);
    assert IntendedEntries([SortKey(Age, Ascending, 30)], Backward) == [ageEntry];
    assert [ageEntry] + IntendedTieEntries(IdOfN, Some(17), Backward) == [ageEntry] + [tieEntry];
    FoldCorrectedAppend([], ageEntry);
    assert [] + [ageEntry] == [ageEntry];
    FoldCorrectedAppend([ageEntry], tieEntry);
  }

  /**
   * Scrolling backward from age 30 and id 17, the condition as written accepts the cursor row
   * itself and the row (age 30, id 99), which comes after it; neither comes before the cursor,
   * and the corrected condition rejects both.
   */
  lemma BackwardAgeAcceptsLaterRows()
    ensures KeysetCondition(Person, AgeCursor(Backward), AgeSort).Success?
    ensures CorrectedKeysetCondition(Person, AgeCursor(Backward), AgeSort).Success?
    ensures var later: Row := e => if e == Age then 30 else 99;
      var cursorRow: Row := e => if e == Age then 30 else 17;
      var keys := [SortKey(Age, Ascending, 30)];
      && Holds(KeysetCondition(Person, AgeCursor(Backward), AgeSort).value, later)
      && Holds(KeysetCondition(Person, AgeCursor(Backward), AgeSort).value, cursorRow)
      && !Selected(later, keys, IdOfN, Some(17), Backward)
      && !Selected(cursorRow, keys, IdOfN, Some(17), Backward)
      && !Holds(CorrectedKeysetCondition(Person, AgeCursor(Backward), AgeSort).value, later)
      && !Holds(CorrectedKeysetCondition(Person, AgeCursor(Backward), AgeSort).value, cursorRow)
  {
    BackwardAgeScenario();
    CorrectedBackwardAgeScenario();
    var later: Row := e => if e == Age then 30 else 99;
    var cursorRow: Row := e => if e == Age then 30 else 17;
    var keys := [SortKey(Age, Ascending, 30)];
    assert IdOfN != Age;
    assert !Before(later, keys[0]) && !Before(cursorRow, keys[0]);
  }

  /** A cursor on age 30 that carries no additional-sort value. */
  function AgeOnlyCursor(direction: ScrollDirection): KeysetScrollPosition {
    KeysetScrollPosition(map["age" := Present(30)], direction)
  }

  /**
   * Without a tie-break value the all-equal conjunction is the equalities alone: forward from
   * age 30 the condition is `age > 30 OR age = 30`, so the cursor row is selected again, as the
   * reference `Selected` also admits, although it does not come after the cursor.
   */
  lemma ForwardWithoutTieReselectsCursorRow()
    ensures KeysetCondition(Person, AgeOnlyCursor(Forward), AgeSort) == Success(Or(Cmp(Gt, Age, 30), Eq(Age, 30)))
    ensures var cursorRow: Row := e => if e == Age then 30 else 17;
      var keys := [SortKey(Age, Ascending, 30)];
      && Holds(Or(Cmp(Gt, Age, 30), Eq(Age, 30)), cursorRow)
      && Selected(cursorRow, keys, IdOfN, None, Forward)
      && !LexAfter(cursorRow, keys)
  {
    assert PropertyNames(Person, AgeSort) == ["age"];
    assert Resumable(Person, AgeOnlyCursor(Forward), AgeSort);
    ResolvedEntriesOfResumableSort(Person, AgeOnlyCursor(Forward), AgeSort);
    assert SortKeys(Person, AgeOnlyCursor(Forward), AgeSort) == [SortKey(Age, Ascending, 30)];
    assert TieValue(AgeOnlyCursor(Forward)) == None;
    var ageEntry := Regular(Age, Gt, 30);
    assert Entries([SortKey(Age, Ascending, 30)], Forward) + TieEntries(IdOfN, None, Forward) == [ageEntry];
    FoldAppend([], ageEntry);
    assert [] + [ageEntry] == [ageEntry];
    var cursorRow: Row := e => if e == Age then 30 else 17;
    var keys := [SortKey(Age, Ascending, 30)];
    assert SameUpTo(cursorRow, keys, 1);
    assert !After(cursorRow, keys[0]);
  }
}
