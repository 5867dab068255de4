/** Failure-compatible wrappers used by the repeater model. */
module Wrappers {
  /** A value that may be absent: the model of a C# nullable (`Size?`, `Rectangle?`). */
  datatype Option<+T> = None | Some(value: T)

  /** The outcome of an operation that returns nothing but may throw. */
  datatype Outcome<+E> = Pass | Fail(error: E)

  /** The outcome of an operation that returns a value but may throw. */
  datatype Result<+R, +E> = Success(value: R) | Failure(error: E)
}
