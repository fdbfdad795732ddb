/** Failure-carrying datatypes shared by the retention and aggregation models. */
module Wrappers {

  /** An optional value: Go's nil map / missing summary is `None`. */
  datatype Option<+T> = None | Some(value: T) {
    function GetOr(default: T): T {
      match this
      case Some(v) => v
      case None => default
    }
  }

  /** A value or an error, standing for Go's `(value, error)` return pairs. */
  datatype Result<+R, +E> = Success(value: R) | Failure(error: E)

  /** Success or an error without a value, standing for a bare Go `error` return. */
  datatype Outcome<+E> = Pass | Fail(error: E)
}
