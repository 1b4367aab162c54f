/** Failure-compatible wrappers shared by the modules of this model. */
module Wrappers {

  /** `None` stands for PHP's `null` where the source returns or reads one. */
  datatype Option<+T> = None | Some(value: T)

  /** The outcome of an operation that can fail with an error of type `E`. */
  datatype Result<+R, +E> = Success(value: R) | Failure(error: E)
}
