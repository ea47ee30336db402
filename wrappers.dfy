/** Option and Result values standing for JavaScript's `undefined`/`null` and for a thrown error. */
module Wrappers {

  /** `None` stands for a missing value (`undefined` or `null`). */
  datatype Option<+T> = None | Some(value: T)

  /** `Err` stands for an exception thrown by the modelled code. */
  datatype Result<+T, +E> = Ok(value: T) | Err(error: E)
}
