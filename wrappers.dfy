/** Optional values and failure outcomes, in place of NULL pointers and fatal exits. */
module Wrappers {

  datatype Option<+T> = None | Some(value: T)

  /** The result of an operation that either produces a value or fails. */
  datatype Result<+T, +E> = Ok(value: T) | Err(error: E)

  /** The result of an operation that produces nothing but may fail. */
  datatype Outcome<+E> = Pass | Fail(error: E)
}
