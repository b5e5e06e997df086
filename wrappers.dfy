/** Optional values and results, used for missing table cells and raised exceptions. */
module Wrappers {

  /** A value that may be absent; `None` stands for a missing (NaN) cell. */
  datatype Option<+T> = None | Some(value: T)

  /** The outcome of a step that may raise: `Err` carries the exception. */
  datatype Result<+T, +E> = Ok(value: T) | Err(error: E)
}
