/** Failure-compatible result types shared by the routing modules. */
module Wrappers {

  /** A value that may be absent (JavaScript `undefined`). */
  datatype Option<+T> = None | Some(value: T)

  /** The outcome of an operation that either produces a value or throws. */
  datatype Result<+T, +E> = Success(value: T) | Failure(error: E)

  /** The outcome of an operation run only for its effect, which may throw. */
  datatype Outcome<+E> = Pass | Fail(error: E)
}
