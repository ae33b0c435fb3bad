/** Option and Result, as used throughout the model. */
module Wrappers {

  datatype Option<+T> = None | Some(value: T)

  /** A value or the failure that replaced it (an error outcome, a thrown description). */
  datatype Result<+R, +E> = Success(value: R) | Failure(error: E)
}
