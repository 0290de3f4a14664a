/** Optional values and fallible results shared by the modules of the pipeline. */
module Wrappers {

  /** A value that may be absent: a missing table, a NULL column, a failed coercion. */
  datatype Option<+T> = None | Some(value: T)

  /** The outcome of an operation that can fail with an error of type E. */
  datatype Result<+T, +E> = Ok(value: T) | Err(error: E)
}
