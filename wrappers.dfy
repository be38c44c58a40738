/** Optional values and error results shared by the dashboard modules. */
module Wrappers {

  /** A cell that may be missing (pandas NaN / None). */
  datatype Option<+T> = None | Some(value: T)

  /** The outcome of an operation that can raise. */
  datatype Result<+T, +E> = Ok(value: T) | Err(error: E)
}
