/** Shared value types: the byte of a JavaScript `Uint8Array` and a
    success/failure result standing in for a thrown exception. */
module Wrappers {

  /** One element of a `Uint8Array`. */
  type byte = x: int | 0 <= x < 256

  /** The outcome of an operation that may throw. */
  datatype Result<+T, +E> = Success(value: T) | Failure(error: E)
}
