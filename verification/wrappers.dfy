/** Failure-carrying values shared by every module of the model. */
module Wrappers {

  /** An optional value: a nullable column, an absent JSON field, a `None` return. */
  datatype Option<+T> = None | Some(value: T)

  /** The outcome of a route handler: a value, or the error it answers with. */
  datatype Result<+T, +E> = Success(value: T) | Failure(error: E)
}
