/** Option and Result values shared by every module of the model. */
module Wrappers {

  /** A value that may be absent: a missing key, a lookup that found nothing. */
  datatype Option<+T> = None | Some(value: T) {
    function GetOr(default: T): T {
      match this
      case Some(v) => v
      case None => default
    }
  }

  /** The outcome of an operation that either produces a value or raises an
      exception that nothing in the program catches. */
  datatype Result<+T> = Ok(value: T) | Raised(reason: string)
}
