/** Option and Result values for the JavaScript `null`/`undefined` results and for thrown errors. */
module Wrappers {

  datatype Option<+T> = None | Some(value: T) {

    /** The wrapped value, or `default` when there is none. */
    function GetOr(default: T): T {
      match this
      case Some(v) => v
      case None => default
    }
  }

  /** The value of an operation that either completes or throws an error carrying a message. */
  datatype Result<+R> = Success(value: R) | Failure(error: string)
}
