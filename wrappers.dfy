/** Nullable values and success-or-error results. */
module Wrappers {

  /** A Java reference that may be null: None stands for null. */
  datatype Option<+T> = None | Some(value: T)

  /** The outcome of a store call: the saved value or the exception it throws. */
  datatype Result<+R, +E> = Success(value: R) | Failure(error: E)
}
