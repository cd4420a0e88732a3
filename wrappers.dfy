/** Option and Result: the value forms of java.util.Optional and of an operation that may throw. */
module Wrappers {

  /** The value of a java.util.Optional: empty, or holding a value. */
  datatype Option<+T> = None | Some(value: T)

  /** The outcome of an operation that either returns a value or throws. */
  datatype Result<+R, +E> = Success(value: R) | Failure(error: E)
}
