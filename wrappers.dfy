/** Option and Result, used for JavaScript's `null` and for thrown errors. */
module Wrappers {

  /** `None` stands for JavaScript's `null` (or `undefined`). */
  datatype Option<+T> = None | Some(value: T)

  /** `Failure` stands for an exception raised by the modelled code. */
  datatype Result<+R, +E> = Success(value: R) | Failure(error: E)
}
