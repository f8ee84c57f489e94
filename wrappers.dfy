/** Option and Result, the two Rust enums the back end returns through. */
module Wrappers {

  datatype Option<+T> = None | Some(value: T) {
    /** Rust's `unwrap_or`. */
    function GetOr(default: T): T {
      match this
      case Some(v) => v
      case None => default
    }
  }

  /** Rust's `Result<T, E>`: the back end's commands report errors as `Err(String)`. */
  datatype Result<+T, +E> = Ok(value: T) | Err(error: E)
}
