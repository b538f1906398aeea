/** Optional values and results with an error, shared by every module of the model. */
module Wrappers {

  /** A value that may be absent (a nullable column, a lookup that finds nothing). */
  datatype Option<+T> = None | Some(value: T)

  /** The outcome of a request handler: a value, or the error it aborts with. */
  datatype Result<+T, +E> = Ok(value: T) | Err(error: E)
}
