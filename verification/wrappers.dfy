/** Failure-carrying result types shared by the model. */
module Wrappers {

  /** A value that may be absent: JavaScript's `null`, or a read that timed out. */
  datatype Option<+T> = None | Some(value: T)

  /** The outcome of an operation that either produces a value or fails with a reason. */
  datatype Result<+R, +E> = Ok(value: R) | Err(error: E)
}
