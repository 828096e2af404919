/** Option and Result values for the JavaScript code's missing values and thrown errors. */
module Wrappers {

  /** A value that may be absent (`null`, `undefined` or NaN in the JavaScript code). */
  datatype Option<+T> = None | Some(value: T)

  /** The outcome of a step that may throw. */
  datatype Result<+T, +E> = Success(value: T) | Failure(error: E)
}
