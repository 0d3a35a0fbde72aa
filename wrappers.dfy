/** Optional values and results with an error path, used across the model. */
module Wrappers {

  /** A value that may be absent (Python's Optional: `None` or a value). */
  datatype Option<+T> = None | Some(value: T)

  /** The outcome of a construction that may raise instead of returning. */
  datatype Result<+T, +E> = Ok(value: T) | Err(error: E)
}
