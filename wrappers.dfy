/** Failure-carrying results shared by the report pipeline. */
module Wrappers {
  /** A value that may be missing (a pandas NaN cell, a dictionary lookup that fails). */
  datatype Option<+T> = None | Some(value: T)

  /** The outcome of a step that may raise an exception instead of returning. */
  datatype Result<+T, +E> = Ok(value: T) | Err(error: E)
}
