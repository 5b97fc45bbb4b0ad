/** Option and Result, the failure-compatible wrappers used across the model.
    `Option` stands in for a Java reference that may be null; `Result` for a
    call that either returns a value or throws one of the source's exceptions. */
module Wrappers {

  datatype Option<+T> = None | Some(value: T) {

    /** The encapsulated value, or `default` for None. */
    function GetOr(default: T): T {
      match this
      case Some(v) => v
      case None => default
    }
  }

  datatype Result<+T, +E> = Success(value: T) | Failure(error: E)
}
