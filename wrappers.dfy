/** Failure-carrying wrappers used in place of PHP's null returns and exceptions. */
module Wrappers {

  /** A value or nothing: PHP's `?T` return types. */
  datatype Option<+T> = None | Some(value: T)

  /** A value or an error: an operation that may throw. */
  datatype Result<+T, +E> = Ok(value: T) | Err(error: E)
}
