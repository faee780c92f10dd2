/** Option and Result, used across the model. */
module Wrappers {

  /** A value that may be absent: JavaScript's `null`/`undefined`, or a call that threw. */
  datatype Option<+T> = None | Some(value: T) {

    /** The value, or `default` when absent. */
    function GetOr(default: T): T {
      match this
      case Some(v) => v
      case None => default
    }
  }

  /** A promise outcome, or a call that either returns a value or throws. */
  datatype Result<+R, +E> = Success(value: R) | Failure(error: E)
}
