/** Optional values and results, standing for Go's nil values and (value, error) pairs. */
module Wrappers {

  /** A value that may be absent: nil, or a missing map entry. */
  datatype Option<+T> = None | Some(value: T)

  /** The (value, error) pair a Go function returns: exactly one half is meaningful. */
  datatype Result<+T, +E> = Ok(value: T) | Err(error: E)
}
