/** Option, Result and Outcome, used for JavaScript's `null` results and rejected promises. */
module Wrappers {

  datatype Option<+T> = None | Some(value: T)

  datatype Result<+R, +E> = Success(value: R) | Failure(error: E)

  /** A promise that resolves with no value, or rejects with an error. */
  datatype Outcome<+E> = Pass | Fail(error: E)
}
