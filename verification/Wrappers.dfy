/** Failure-carrying return types used in place of Kotlin's nullable values and exceptions. */
module Wrappers {

  /** A value that may be absent: Kotlin's `T?`. */
  datatype Option<+T> = None | Some(value: T)

  /** Either a computed value or the error that aborted the computation. */
  datatype Result<+T, +E> = Success(value: T) | Failure(error: E)
}
