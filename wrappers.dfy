/** Failure-carrying results: Option for "maybe a value", Result for an
    operation that either produces a value or raises an error. */
module Wrappers {

  datatype Option<+T> = None | Some(value: T)

  datatype Result<+T, +E> = Ok(value: T) | Err(error: E)
}
