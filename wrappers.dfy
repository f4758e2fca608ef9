/** Option and Result values standing for Java's nulls and exceptions. */
module Wrappers {

  /** `None` stands for a Java `null`. */
  datatype Option<+T> = None | Some(value: T)

  /** `Failure` stands for an exception thrown by the Java code. */
  datatype Result<+T, +E> = Success(value: T) | Failure(error: E)
}
