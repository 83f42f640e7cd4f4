/** Option and Result: the absent values and raised exceptions of the modelled code. */
module Wrappers {

  /** A value that may be absent (Python's `None`). */
  datatype Option<+T> = None | Some(value: T)

  /** The outcome of a call that may raise: `Failure` carries what was raised. */
  datatype Result<+R, +E> = Success(value: R) | Failure(error: E)
}
