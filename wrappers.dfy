/** Option and Result values for missing cells and for the exceptions of the Python code. */
module Wrappers {

  /** A value that may be absent (a missing table cell, a search that found nothing). */
  datatype Option<+T> = None | Some(value: T)

  /** The outcome of an operation that either returns a value or raises an error. */
  datatype Result<+T, +E> = Success(value: T) | Failure(error: E)
}
