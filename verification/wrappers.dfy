/** Failure-carrying datatypes standing in for Rust's `Option` and `anyhow::Result`. */
module Wrappers {

  /** `Option<T>`: a value that may be absent. */
  datatype Option<+T> = None | Some(value: T) {

    /** Returns the contained value, or `default` when absent (`unwrap_or`). */
    function GetOr(default: T): T {
      match this
      case Some(v) => v
      case None => default
    }
  }

  /** `anyhow::Result<T>`: a value or an error message. */
  datatype Result<+T> = Ok(value: T) | Err(error: string) {

    /** Returns the contained value, or `default` on error (`unwrap_or`). */
    function GetOr(default: T): T {
      match this
      case Ok(v) => v
      case Err(_) => default
    }
  }
}
