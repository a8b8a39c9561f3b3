/** Optional values and results with an error message, used where the
    source has nullable columns, `None` defaults and raised exceptions. */
module Wrappers {

  datatype Option<T> = None | Some(value: T) {
    function GetOr(default: T): T {
      match this
      case Some(v) => v
      case None => default
    }
  }

  /** `Err` carries the text of the exception the source raises. */
  datatype Result<T> = Ok(value: T) | Err(message: string)
}
