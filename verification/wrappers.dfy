/** Optional values, standing for Go's nil children and (value, ok) pairs. */
module Wrappers {

  datatype Option<+T> = None | Some(value: T)

  /** An operation that either completes or stops with an error, standing for
      Go's panics and callback errors. */
  datatype Result<+T, +E> = Ok(value: T) | Err(error: E)
}
