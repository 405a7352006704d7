/** Failure-carrying values used across the model in place of Python's None and exceptions. */
module Wrappers {

  /** A Python `Optional[T]`: `None` or a present value. */
  datatype Option<+T> = None | Some(value: T)

  /** A value, or the exception that was raised instead of returning one. */
  datatype Result<+T, +E> = Ok(value: T) | Err(error: E)

  /** Success with no value (an empty response), or the exception raised. */
  datatype Outcome<+E> = Pass | Fail(error: E)
}
