/** Optional values and success/failure results shared by every module. */
module Wrappers {

  /** A value that may be absent (JavaScript `undefined`/`null`). */
  datatype Option<+T> = None | Some(value: T)

  /** The outcome of an operation that resolves with a value or rejects with an error. */
  datatype Result<+T, +E> = Ok(value: T) | Err(error: E)
}
