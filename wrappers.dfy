/** Option and Result, used for Python's "missing" answers and raised exceptions. */
module Wrappers {

  datatype Option<+T> = None | Some(value: T)

  /** The outcome of a Python call: its value, or the exception it raises. */
  datatype Result<+R, +E> = Success(value: R) | Failure(error: E)
}
