/** Failure-carrying datatypes used across the model: an optional value,
    a computation that yields a value or an error, and one that yields
    nothing or an error (a JavaScript method that returns or throws). */
module Wrappers {

  datatype Option<+T> = None | Some(value: T)

  datatype Result<+R, +E> = Success(value: R) | Failure(error: E)

  datatype Outcome<+E> = Pass | Fail(error: E)
}
