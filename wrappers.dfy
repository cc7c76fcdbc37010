/** Optional values and results with an error, as JavaScript's `null` and thrown errors are modelled. */
module Wrappers {
  datatype Option<+T> = None | Some(value: T)

  datatype Result<+R, +E> = Ok(value: R) | Err(error: E)
}
