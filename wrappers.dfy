/** Failure-carrying values used across the model. */
module Wrappers {

  /** Python's `None` / a present value. */
  datatype Option<+T> = None | Some(value: T) {
    function GetOr(default: T): T {
      match this
      case Some(v) => v
      case None => default
    }
  }

  /** The outcome of a call into a service the model cannot see: it either
      returns a value or raises an exception. */
  datatype Call<+T> = Returned(value: T) | Raised
}
