/** Failure-compatible wrappers used across the model: `Option` for SQL NULL /
    Python `None`, `Result` for operations that raise or report an error. */
module Wrappers {

  datatype Option<+T> = None | Some(value: T) {
    function GetOr(default: T): T {
      match this
      case Some(v) => v
      case None => default
    }
  }

  datatype Result<+R, +E> = Success(value: R) | Failure(error: E)
}
