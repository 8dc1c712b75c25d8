/** Option and Result, used for JavaScript's `null` returns and thrown errors. */
module Wrappers {

  datatype Option<+T> = None | Some(value: T) {
    function GetOr(default: T): T {
      match this
      case Some(v) => v
      case None => default
    }
  }

  /** The outcome of an operation that may throw; `Throw` carries the error's message. */
  datatype Result<+T> = Ok(value: T) | Throw(message: string)
}
