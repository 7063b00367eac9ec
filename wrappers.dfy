/** Option and Result, the two failure-carrying datatypes the model uses. */
module Wrappers {

  /** A value that may be absent: JavaScript's `undefined`, `null` or `NaN`. */
  datatype Option<+T> = None | Some(value: T)

  /** The outcome of a request handler: a reply, or an error response. */
  datatype Result<+R, +E> = Success(value: R) | Failure(error: E)
}
