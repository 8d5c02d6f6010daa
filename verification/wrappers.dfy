/** Outcome of a call into the remote service: a value, or the error its promise was rejected with. */
module Wrappers {

  datatype Result<+T, +E> = Success(value: T) | Failure(error: E)

}
