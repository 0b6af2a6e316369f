/** Python's `None`-or-value results and the exceptions that end a run, as values. */
module Wrappers {

  /** A value that may be absent (Python's `None`). */
  datatype Option<+T> = None | Some(value: T)

  /** The outcome of a step that either produces a value or raises an exception. */
  datatype Result<+T, +E> = Ok(value: T) | Err(error: E)
}
