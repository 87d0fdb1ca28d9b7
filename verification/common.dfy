/** Failure-carrying wrappers shared by both cores. */
module Common {

  /** A possibly-absent value: `None` stands for a Java `null` reference. */
  datatype Option<+T> = None | Some(value: T)

  /** The outcome of an operation that may end in a Java runtime exception. */
  datatype Result<+T, +E> = Success(value: T) | Failure(error: E)

  /** The Java runtime exceptions and errors the two cores can raise. */
  datatype Fault =
    | NullReference      // a method called through a `null` sibling or continuation
    | IndexOutOfBounds   // a match or output index outside a tuple or index array
    | Overflow           // a `StackOverflowError`: calls that recurse without end
}
