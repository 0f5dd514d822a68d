/** Failure-compatible wrappers: Ruby's nil becomes None, a raised exception becomes Err. */
module Wrappers {

  datatype Option<+T> = None | Some(value: T)

  datatype Result<+T, +E> = Ok(value: T) | Err(error: E)
}
