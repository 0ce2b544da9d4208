/** Option and Result, the two failure-carrying shapes the model uses in
    place of Go's nil and Go's panics. */
module Wrappers {

  /** `None` is Go's nil (a nil slice, a nil map, a nil error). */
  datatype Option<+T> = None | Some(value: T) {
    function GetOr(default: T): T {
      match this
      case Some(v) => v
      case None => default
    }
  }

  /** The outcome of an operation that panics in Go on bad input. */
  datatype Result<+R, +E> = Success(value: R) | Failure(error: E)
}
