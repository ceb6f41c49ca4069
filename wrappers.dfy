/** Failure-compatible result types. The Java code reports a rejected call by
    throwing; the model returns one of these values instead. */
module Wrappers {

  /** `None` stands for Java's `null` or an absent map entry. */
  datatype Option<+T> = None | Some(value: T)

  /** The outcome of an operation that produces a value or fails. */
  datatype Result<+R, +E> = Success(value: R) | Failure(error: E)

  /** The outcome of a check that either passes or fails. */
  datatype Outcome<+E> = Pass | Fail(error: E)
}
