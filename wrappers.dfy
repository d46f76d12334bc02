/** Option and Result, the two failure-carrying shapes the model uses. */
module Wrappers {

  datatype Option<+T> = None | Some(value: T)

  /** A computation that either produces a value or raises an error.
      A JavaScript `throw` inside the engine becomes a `Failure`. */
  datatype Result<+R, +E> = Success(value: R) | Failure(error: E)
}
