/** Failure-carrying values used across the model. */
module Wrappers {

  /** A value that may be absent: a failed weather lookup is `None`. */
  datatype Option<+T> = None | Some(value: T)

  /** A value or an error message: an argument that fails validation is `Failure`. */
  datatype Result<+R, +E> = Success(value: R) | Failure(error: E)
}
