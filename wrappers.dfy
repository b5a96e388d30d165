/** Failure-compatible wrappers shared by the other modules. */
module Wrappers {

  /** An optional value: the absent case of a JavaScript `undefined`. */
  datatype Option<+T> = None | Some(value: T)

  /** A value or the error that the source would throw instead. */
  datatype Result<+T, +E> = Success(value: T) | Failure(error: E)

  /** The outcome of an operation that returns nothing but may throw. */
  datatype Outcome<+E> = Pass | Fail(error: E)
}
