/** Optional values and error-carrying results shared by the other modules. */
module Wrappers {

  /** A value that may be absent (JavaScript `undefined` or `null`). */
  datatype Option<+T> = None | Some(value: T)

  /** The outcome of an operation that either produces a value or fails with an error. */
  datatype Result<+R, +E> = Ok(value: R) | Err(error: E)

  /** The outcome of an operation that produces nothing but may fail. */
  datatype Outcome<+E> = Pass | Fail(error: E)
}
