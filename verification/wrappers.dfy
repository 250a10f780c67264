/** Optional values and results with errors, shared by the rest of the model. */
module Wrappers {

  /** A value that may be absent; stands for Ruby's `nil` where the source
      tests a value for presence. */
  datatype Option<+T> = None | Some(value: T)

  /** The value of a computation, or the error it raised. */
  datatype Result<+R, +E> = Success(value: R) | Failure(error: E)
}
