/** Option and Result values shared by the other modules. */
module Wrappers {

  /** A value that may be absent; `None` stands for JavaScript's `null` or `undefined`. */
  datatype Option<+T> = None | Some(value: T)

  /** The outcome of an operation that may throw; `Failure` carries the error message. */
  datatype Result<+T, +E> = Success(value: T) | Failure(error: E)
}
