/** Optional values and success-or-error results, used for nullable columns
    and for the errors the services raise. */
module Wrappers {

  /** A value that may be absent, like a nullable column or a query's `.first()`. */
  datatype Option<+T> = None | Some(value: T)

  /** The outcome of an operation: a value, or the error it failed with. */
  datatype Result<+T, +E> = Ok(value: T) | Err(error: E)
}
