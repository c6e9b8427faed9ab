/** Option and Result, as used for the source's `Option` and `Result` values. */
module Wrappers {

  datatype Option<+T> = None | Some(value: T) {

    /** Rust's `unwrap_or`. */
    function GetOr(default: T): T
    {
      match this
      case Some(v) => v
      case None => default
    }

    /** Rust's `map`. */
    function Map<U>(f: T -> U): Option<U>
    {
      match this
      case Some(v) => Some(f(v))
      case None => None
    }
  }

  datatype Result<+T, +E> = Ok(value: T) | Err(error: E)
}
