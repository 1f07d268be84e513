/** Failure-compatible wrappers shared by the dashboard model. */
module Wrappers {

  /** A value that may be absent: Python's `None` next to a real value. */
  datatype Option<+T> = None | Some(value: T)

  /** The outcome of a step that either yields a value or stops with an error. */
  datatype Result<+T, +E> = Success(value: T) | Failure(error: E)
}
