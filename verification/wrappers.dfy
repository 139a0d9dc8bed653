/** Option and Result, standing in for Rust's `Option` and for an exception raised by the Python side. */
module Wrappers {

  datatype Option<+T> = None | Some(value: T)

  datatype Result<+T, +E> = Success(value: T) | Failure(error: E)
}
