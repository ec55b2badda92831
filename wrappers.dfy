/** Optional values and results with an error, as the model's return types. */
module Wrappers {

  /** Java's Optional: a present value or empty. */
  datatype Option<+T> = None | Some(value: T)

  /** A value, or the exception that was thrown instead of producing one. */
  datatype Result<+R, +E> = Success(value: R) | Failure(error: E)
}
