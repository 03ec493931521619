/** Failure-carrying values used in place of Ruby's exceptions and nil. */
module Wrappers {

  datatype Option<+T> = None | Some(value: T) {
    function GetOr(default: T): T {
      match this
      case Some(v) => v
      case None => default
    }
  }

  datatype Result<+T, +E> = Ok(value: T) | Err(error: E)

  /** The outcome of a step that changes state: it either completes or raises. */
  datatype Outcome<+E> = Pass | Fail(error: E)
}
