/** The two failure-carrying shapes the model needs: an optional value and
    the outcome of a call that either returns or throws. */
module Wrappers {

  /** Present or absent value. */
  datatype Option<+T> = None | Some(value: T)

  /** A call that returned `value`, or threw with `error`. */
  datatype Result<+T, +E> = Success(value: T) | Failure(error: E)
}
