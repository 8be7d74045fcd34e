/** Option and Result, the two failure-carrying shapes the launcher's Go
    functions return as `(value, error)` pairs. */
module Wrappers {

  datatype Option<+T> = None | Some(value: T)

  datatype Result<+T, +E> = Success(value: T) | Failure(error: E)
}
