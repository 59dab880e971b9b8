/** Option and Result, standing in for Java's null / Optional and for thrown exceptions. */
module Wrappers {

  datatype Option<+T> = None | Some(value: T)

  datatype Result<+R, +E> = Success(value: R) | Failure(error: E)

  /** The outcome of an operation that returns nothing (Java `void`) or throws. */
  datatype Outcome<+E> = Pass | Fail(error: E)
}
