/** Failure-compatible wrappers used throughout the converter model. */
module Wrappers {

  /** An optional value; stands for a JavaScript value that may be `null` or `undefined`. */
  datatype Option<+T> = None | Some(value: T) {

    /** Returns the wrapped value, or `default` when there is none (the `x || default` idiom). */
    function GetOr(default: T): (r: T)
      ensures Some? ==> r == value
      ensures None? ==> r == default
    {
      match this
      case Some(v) => v
      case None => default
    }
  }

  /** Either a value or an error message. */
  datatype Result<+R> = Success(value: R) | Failure(error: string)
}
