/** Failure-carrying results used across the model. */
module Wrappers {

  datatype Option<T> = None | Some(value: T)

  /** Either a value or the error the source would raise. */
  datatype Result<T, E> = Success(value: T) | Failure(error: E)
}
