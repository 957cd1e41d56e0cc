/** Success/failure wrappers shared by the other modules. */
module Wrappers {

  datatype Option<+T> = None | Some(value: T)

  /** The outcome of an operation that either produces a value or panics. */
  datatype Result<+R, +E> = Success(value: R) | Failure(error: E)
}
