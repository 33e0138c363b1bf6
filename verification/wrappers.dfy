/** Option and Result: the error-carrying values the codec uses in place of
    Go's `(value, err)` pairs and nil checks. */
module Wrappers {

  /** A value that may be absent. */
  datatype Option<+T> = None | Some(value: T)

  /** Either a value or the reason there is none. */
  datatype Result<+R, +E> = Success(value: R) | Failure(error: E)
}
