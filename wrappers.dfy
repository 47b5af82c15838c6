/** Option and Result types, with the two Python exceptions the scripts can raise on their own. */
module Wrappers {

  datatype Option<+T> = None | Some(value: T) {
    function GetOr(default: T): T {
      match this
      case Some(v) => v
      case None => default
    }
  }

  /** The exceptions raised by the modelled code itself (not by I/O or foreign libraries). */
  datatype PyError =
    | KeyError(key: string)        // a `d[key]` lookup of a missing key
    | IndexError(message: string)  // a list index out of range

  datatype Result<+T> = Success(value: T) | Failure(error: PyError)
}
