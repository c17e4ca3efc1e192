/** Optional values and success/failure results shared by the whole model. */
module Wrappers {

  /** A value that may be absent: a missing request field, a null column, an unauthenticated caller. */
  datatype Option<+T> = None | Some(value: T)

  /** The outcome of a request handler: a value, or the error the handler answers with. */
  datatype Result<+R, +E> = Success(value: R) | Failure(error: E)
}
