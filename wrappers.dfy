/** Optional values and results with an error, standing in for Java's nullable references and exceptions. */
module Wrappers {

  /** A possibly absent value: `None` is Java's `null`. */
  datatype Option<+T> = None | Some(value: T)

  /** The outcome of an operation that can throw: `Failure` carries the exception. */
  datatype Result<+R, +E> = Success(value: R) | Failure(error: E)
}

/** The exceptions the query-construction layer raises, one constructor per throw site. */
module QueryErrors {

  datatype Error =
    /** `getRequiredPersistentProperty` finds no property of that name. */
    | RequiredPropertyNotFound(name: string)
    /** `resolveGraphProperty`: neither the full path nor its first segment is a graph property. */
    | UnknownSortProperty(path: string)
    /** `buildExpression`: a composite property ordered without a nested field. */
    | IllegalComposite(path: string)
    /** `String.split("\\.")[0]` on a path made of dots only (an `ArrayIndexOutOfBoundsException`). */
    | SegmentIndexOutOfBounds(path: string)
    /** `combineKeysetIntoCondition`: the cursor value of an ordered key is null. */
    | UnresumableCursor(key: string)
    /** `toStatement` with no match pattern: `match` stays null and is dereferenced. */
    | EmptyMatch
    /** `toStatement` with no explicit return expressions and no return tuple: `getReturnTuple()` is null. */
    | MissingReturnTuple
}
