/** Option and Result, the two failure-carrying shapes the model uses. */
module Wrappers {

  /** Rust's `Option<T>`. */
  datatype Option<+T> = None | Some(value: T) {
    /** `unwrap_or`: the carried value, or `default` when there is none. */
    function GetOr(default: T): T {
      match this
      case Some(v) => v
      case None => default
    }
  }

  /** A computation that either produces a value or aborts the request (a Rust panic). */
  datatype Result<+T, +E> = Success(value: T) | Failure(error: E)
}
