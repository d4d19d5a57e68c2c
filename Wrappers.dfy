/** Failure-carrying values used in place of the exceptions the library throws. */
module Wrappers {

  /** A value that may be absent: Kotlin's nullable `T?`. */
  datatype Option<+T> = None | Some(value: T)

  /** Either a value or the exception that would have been thrown instead. */
  datatype Result<+R, +E> = Success(value: R) | Failure(error: E)

  /** The outcome of an operation that returns `Unit` or throws. */
  datatype Outcome<+E> = Pass | Fail(error: E)
}
