/** The outcome of an operation that may throw: its value, or the thrown error's message. */
module Wrappers {

  datatype Result<+T> = Success(value: T) | Failure(error: string)
}
