/** Failure-carrying datatypes shared by the other modules. */
module Wrappers {

  /** An optional value: the result of a decoder that may reject its input. */
  datatype Option<+T> = None | Some(value: T)

  /** A value or the error that was raised instead of producing it. */
  datatype Result<+R, +E> = Success(value: R) | Failure(error: E)
}
