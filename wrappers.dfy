/** Failure-carrying values: the model's stand-in for Java's null results and thrown exceptions. */
module Wrappers {

  /** An optional value: `None` plays the part of Java's `null`. */
  datatype Option<+T> = None | Some(value: T)

  /** A value or the error that stopped the computation producing it. */
  datatype Result<+T, +E> = Success(value: T) | Failure(error: E)

  /** The outcome of a step that returns nothing but may fail. */
  datatype Outcome<+E> = Pass | Fail(error: E)
}
