/** Failure-carrying result types used across the model: `Option` stands for a
    Ruby value that may be `nil`, `Result` for a call that either returns or
    raises. */
module Wrappers {

  /** A value that may be absent (`nil` in the modelled code). */
  datatype Option<+T> = None | Some(value: T)

  /** Either the value a call returns or the error it raises. */
  datatype Result<+R, +E> = Success(value: R) | Failure(error: E)
}
