/** Option and Result values, used where the modelled code returns None or raises. */
module Wrappers {

  datatype Option<+T> = None | Some(value: T) {

    /** The wrapped value, or `default` when there is none (Python's `x or default`). */
    function GetOr(default: T): T {
      match this
      case Some(v) => v
      case None => default
    }
  }

  /** Either a value or the failure that the modelled code would raise instead. */
  datatype Result<+T, +E> = Ok(value: T) | Err(error: E)
}
