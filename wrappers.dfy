/** Failure-compatible wrappers shared by the whole model. */
module Wrappers {

  /** A value that may be absent, as Python's `None` or a missing key. */
  datatype Option<+T> = None | Some(value: T) {

    /** The wrapped value, or `default` when absent. */
    function GetOr(default: T): T {
      match this
      case Some(v) => v
      case None => default
    }
  }

  /** A result or the error the source would raise. */
  datatype Result<+R, +E> = Ok(value: R) | Err(error: E)
}
