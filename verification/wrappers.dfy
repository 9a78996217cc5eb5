/** Option and Result, the two outcome types the pixel buffer library returns. */
module Wrappers {

  /** Rust's `Option<T>`. */
  datatype Option<+T> = None | Some(value: T) {

    /** `unwrap_or(default)`; with the type's own default this is `unwrap_or_default`. */
    function GetOr(default: T): T {
      match this
      case Some(v) => v
      case None => default
    }
  }

  /** Rust's `Result<T, &'static str>`: the library only ever fails with a fixed message. */
  datatype Result<+T> = Ok(value: T) | Err(message: string)
}
