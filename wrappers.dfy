/** Null-or-value and success-or-error wrappers shared by the other modules. */
module Wrappers {

  /** A value that may be absent; `None` stands for a .NET `null` reference. */
  datatype Option<+T> = None | Some(value: T)

  /** The outcome of an operation that the source either completes or abandons by throwing. */
  datatype Result<+R, +E> = Success(value: R) | Failure(error: E)
}
