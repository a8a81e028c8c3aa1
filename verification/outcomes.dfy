/** Optional values and results shared by the logger modules. */
module Outcomes {

  /** A value that may be missing, as a `OnceLock` that may not have been set. */
  datatype Option<+T> = None | Some(value: T) {
    function GetOr(default: T): T
    {
      match this
      case Some(v) => v
      case None => default
    }
  }

  /** The outcome of an operation that may be refused. */
  datatype Result<+R, +E> = Ok(value: R) | Err(error: E)
}
