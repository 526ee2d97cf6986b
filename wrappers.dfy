/** Option and Result, the two failure-carrying shapes the server uses. */
module Wrappers {
  datatype Option<+T> = None | Some(value: T)

  datatype Result<+T, +E> = Ok(value: T) | Err(error: E)
}
