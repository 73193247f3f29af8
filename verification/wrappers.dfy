/** Failure-carrying datatypes used where the tool returns "nothing" or throws. */
module Wrappers {

  /** A value that may be absent (JavaScript's `undefined`, or a failed search). */
  datatype Option<+T> = None | Some(value: T)

  /** The outcome of an operation that either produces a value or raises an error. */
  datatype Result<+T, +E> = Success(value: T) | Failure(error: E)
}
