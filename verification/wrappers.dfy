/** Failure-compatible result types shared by the model. */
module Wrappers {

  /** A value that may be missing (a pandas NaN cell, a lookup with no hit). */
  datatype Option<+T> = None | Some(value: T)

  /** The outcome of an operation that may fail with an error value. */
  datatype Result<+R, +E> = Success(value: R) | Failure(error: E)
}
