/** Option and Result values shared by the calculator and the reducer. */
module Wrappers {

  /** A value that may be absent (JavaScript's `null` or `undefined`). */
  datatype Option<+T> = None | Some(value: T)

  /** The outcome of an operation that either returns a value or throws an error message. */
  datatype Result<+R> = Success(value: R) | Failure(message: string)
}
