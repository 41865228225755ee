/** Optional values and error-carrying results, standing in for Go's nil pointers
    and its (value, error) return pairs. */
module Wrappers {

  /** A value that may be absent; None plays the part of a nil pointer. */
  datatype Option<+T> = None | Some(value: T)

  /** The outcome of an operation that returns a value or an error. */
  datatype Result<+T, +E> = Ok(value: T) | Err(error: E)
}
