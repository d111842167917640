/** Option and Result values used in place of Java's null and thrown exceptions. */
module Wrappers {

  /** `None` stands for Java's `null`. */
  datatype Option<+T> = None | Some(value: T)

  /** `Failure` stands for an exception thrown by the Java code. */
  datatype Result<+T, +E> = Success(value: T) | Failure(error: E)
}
