/** Option, Result and Outcome values used in place of Python's None and exceptions. */
module Wrappers {

  datatype Option<+T> = None | Some(value: T)

  /** A value, or the exception the Python code would have raised instead. */
  datatype Result<+T, +E> = Success(value: T) | Failure(error: E)

  /** Completion of a procedure that returns nothing but may raise. */
  datatype Outcome<+E> = Pass | Fail(error: E)
}
