/** Option and Result values used across the model for Go's nil results,
    `(value, ok)` pairs and `(value, error)` returns. */
module Wrappers {

  datatype Option<+T> = None | Some(value: T)

  datatype Result<+T, +E> = Success(value: T) | Failure(error: E)
}
