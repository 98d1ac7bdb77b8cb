/** Option and Result, the two shapes a transport outcome takes in this model. */
module Wrappers {

  /** Some value, or none (JavaScript's `null`/`undefined`). */
  datatype Option<+T> = None | Some(value: T)

  /** A settled promise: fulfilled with a value, or rejected with an error. */
  datatype Result<+R, +E> = Success(value: R) | Failure(error: E)
}
