/** Failure-compatible wrappers shared by every module: Kotlin's `T?` and
    thrown exceptions become explicit values. */
module Wrappers {

  /** A nullable value: `None` stands for `null`. */
  datatype Option<+T> = None | Some(value: T)

  /** A computed value, or the exception the source would throw instead. */
  datatype Result<+T, +E> = Success(value: T) | Failure(error: E)

  /** The outcome of an operation that returns nothing but may throw. */
  datatype Outcome<+E> = Pass | Fail(error: E)
}
