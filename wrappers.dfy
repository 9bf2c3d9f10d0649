/** The Option and Result datatypes shared by the model. */
module Wrappers {

  /** A value that may be absent: JavaScript's `null` for a field that is not set yet. */
  datatype Option<+T> = None | Some(value: T)

  /** The outcome of an operation that may fail with an error value (a rejected promise). */
  datatype Result<+R, +E> = Success(value: R) | Failure(error: E)
}
