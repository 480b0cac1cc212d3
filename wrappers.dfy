/** Optional values and results with an error, as used throughout the model.
    `None` stands for JavaScript's `undefined`/`null`/missing property. */
module Wrappers {

  datatype Option<+T> = None | Some(value: T) {
    function GetOr(default: T): T {
      match this
      case Some(v) => v
      case None => default
    }
  }

  /** The value a function returns, or the message of the `Error` it throws. */
  datatype Result<+T> = Ok(value: T) | Failure(error: string)
}
