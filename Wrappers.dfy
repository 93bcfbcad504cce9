/** Option, Result and Outcome: the model's stand-ins for Swift optionals and `throws`. */
module Wrappers {

  datatype Option<+T> = None | Some(value: T)

  /** A computation that yields a value or throws an error. */
  datatype Result<+T, +E> = Success(value: T) | Failure(error: E)

  /** A throwing function that returns nothing: it completes or throws. */
  datatype Outcome<+E> = Pass | Fail(error: E)
}
