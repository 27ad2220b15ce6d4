/** Wrappers used by the template model. */
module Wrappers {

  datatype Option<+T> = None | Some(value: T)

  /** The outcome of an operation that Java reports by throwing. */
  datatype Result<+R, +E> = Success(value: R) | Failure(error: E)
}
