/** Small result types shared by the modules of the model. */
module Outcomes {

  /** Rust's `Option<T>`. */
  datatype Option<+T> = None | Some(value: T) {
    function GetOr(default: T): T {
      match this
      case Some(v) => v
      case None => default
    }
  }

  /** Rust's `Result<(), E>`: success carries no value. */
  datatype Outcome<+E> = Ok | Err(error: E)
}
