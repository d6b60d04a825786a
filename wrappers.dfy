/** Option, Result and Outcome: how the model returns the errors the program raises. */
module Wrappers {

  datatype Option<+T> = None | Some(value: T) {
    function GetOr(default: T): T {
      match this
      case Some(v) => v
      case None => default
    }
  }

  datatype Result<+R, +E> = Success(value: R) | Failure(error: E)

  /** For an operation that returns nothing on success. */
  datatype Outcome<+E> = Pass | Fail(error: E)
}
