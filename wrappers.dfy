/** The optional-value and success-or-error datatypes shared by the other modules. */
module Wrappers {

  /** A value that may be absent: JavaScript's `undefined`/`null` against a present value. */
  datatype Option<+T> = None | Some(value: T)

  /** The outcome of a callback that either fails with an error or succeeds with a value. */
  datatype Result<+R, +E> = Success(value: R) | Failure(error: E)
}
