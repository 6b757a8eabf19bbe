/** Option and Result, the two failure-carrying shapes the model uses. */
module Wrappers {

  /** A value, or nothing (a point where evaluation failed). */
  datatype Option<+T> = None | Some(value: T)

  /** A value, or the error that stopped the computation. */
  datatype Result<+T, +E> = Ok(value: T) | Err(error: E)
}
