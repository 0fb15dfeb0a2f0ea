/** Success/failure carriers shared by every module of the model. */
module Wrappers {

  /** A value that may be missing: JavaScript's `undefined`/`null` versus a present value. */
  datatype Option<+T> = None | Some(value: T)

  /** The outcome of an operation that resolves with a value or rejects with an error. */
  datatype Result<+T, +E> = Success(value: T) | Failure(error: E)
}
