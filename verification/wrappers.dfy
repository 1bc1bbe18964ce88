/** The nullable fields and the thrown exceptions of the modelled Java code. */
module Wrappers {
  /** `None` stands for `null`. */
  datatype Option<+T> = None | Some(value: T)

  /** A returned value, or what was thrown instead. */
  datatype Result<+R, +E> = Success(value: R) | Failure(error: E)
}
