/** An optional value and a value-or-error result. */
module Wrappers {

  datatype Option<+T> = None | Some(value: T)

  /** The value of a Ruby call that either returns or raises. */
  datatype Result<+T, +E> = Success(value: T) | Failure(error: E)
}
