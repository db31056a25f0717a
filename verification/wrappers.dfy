/** Failure-compatible values used across the model: `Option` stands for a
    JavaScript property that may be absent (MooTools' `typeOf` reports it as
    "null"), `Result` for an operation that may throw. */
module Wrappers {

  datatype Option<+T> = None | Some(value: T)

  datatype Result<+T, +E> = Success(value: T) | Failure(error: E)
}
