/** Optional values and results, used for the Go code's `(value, ok)` and `(value, err)` pairs. */
module Wrappers {

  datatype Option<+T> = None | Some(value: T)

  datatype Result<+T, +E> = Ok(value: T) | Err(error: E)
}
