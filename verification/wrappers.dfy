/** Failure-compatible result types used by the tree's queries and mutators. */
module Wrappers {

  /** `None` plays the role of the absent-value marker the tree returns. */
  datatype Option<+T> = None | Some(value: T)

  /** A successful value or the error an operation raises. */
  datatype Result<+T, +E> = Success(value: T) | Failure(error: E)
}
