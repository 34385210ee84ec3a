/** Optional values and results shared by every module of the model. */
module Wrappers {

  datatype Option<+T> = None | Some(value: T) {
    function GetOr(default: T): T {
      match this
      case Some(v) => v
      case None => default
    }
  }

  /** A computation that either yields a value or throws (JavaScript `throw`). */
  datatype Result<+R> = Ok(value: R) | Err(message: string)
}
