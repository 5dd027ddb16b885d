/** The optional and success-or-failure value types shared by the model. */
module Wrappers {

  datatype Option<+T> = None | Some(value: T)

  /** The value of a call that either returns normally or throws. */
  datatype Result<+T, +E> = Success(value: T) | Failure(error: E)
}
