/** The Spring Data domain objects the query layer reads: sort orders, keyset cursors and pages. */
module SpringData {
  import opened Cypher

  /** `Sort.Direction`: ASC and DESC. */
  datatype Direction = Ascending | Descending {
    predicate IsAscending() { this == Ascending }
  }

  /** `Sort.Order`: a property path, a direction and case sensitivity. */
  datatype Order = Order(property: string, direction: Direction, ignoreCase: bool) {
    predicate IsDescending() { direction == Descending }
  }

  /** `Sort`: its orders in precedence order. */
  type Sort = seq<Order>

  /** `ScrollPosition.Direction` */
  datatype ScrollDirection = Forward | Backward

  /**
   * A cursor value as stored in the position's key map: a Java `null`, a driver `Value` that is
   * null, or a value that converts to a bound parameter (the conversion is the identity here).
   */
  datatype CursorValue = JavaNull | NullValue | Present(value: Value)

  /** `KeysetScrollPosition`: the last-seen value per key and the scroll direction. */
  datatype KeysetScrollPosition = KeysetScrollPosition(keys: map<string, CursorValue>, direction: ScrollDirection) {
    predicate ScrollsForward() { direction == Forward }
  }

  /** `Pageable`: the sort, the offset of the page and its size. */
  datatype Pageable = Pageable(sort: Sort, offset: int, pageSize: int)
}
