/** Failure-carrying result types used across the model. */
module Wrappers {

  /** The conventional optional value (Rust's `Option`). */
  datatype Option<+T> = None | Some(value: T) {
    function GetOr(default: T): T {
      match this
      case Some(v) => v
      case None => default
    }
  }

  /** A recoverable outcome (Rust's `Result`). */
  datatype Result<+T, +E> = Ok(value: T) | Err(error: E)

  /**
   * The outcome of a call that may abort the process. `Panics` stands for a
   * Rust panic (an `unwrap` on a failed constructor, an `unreachable!()`):
   * nothing of the computation survives it.
   */
  datatype Run<+T> = Returns(value: T) | Panics
}
