/** Option and Result: Java's null/Optional and thrown exceptions, made explicit.
    A `Failure` carries the exception's message, as `getMessage()` would return it. */
module Wrappers {

  datatype Option<+T> = None | Some(value: T)

  datatype Result<+T> = Success(value: T) | Failure(error: string)
}
