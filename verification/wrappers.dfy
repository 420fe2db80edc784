/** Optional values and results with an error, as the model's other modules use them. */
module Wrappers {

  /** A value that may be missing: a SQL NULL, or a Python `None`. */
  datatype Option<+T> = None | Some(value: T)

  /** The value an operation computes, or the reason it raised. */
  datatype Result<+T, +E> = Ok(value: T) | Err(error: E)
}
