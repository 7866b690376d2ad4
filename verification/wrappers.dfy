/** Failure-carrying datatypes shared by the store and the request handlers. */
module Wrappers {

  /** An optional value: the store's "record or nothing" answer. */
  datatype Option<+T> = None | Some(value: T)

  /** A handler outcome: a success value, or the error the framework turns into a response. */
  datatype Result<+R, +E> = Success(value: R) | Failure(error: E)
}
