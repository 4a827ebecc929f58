/** Failure-carrying datatypes shared by the whole model.
    - Option<T>: a value that may be absent (PHP's nullable parameters).
    - Result<R, E>: a value or an error (a PHP call that returns or throws).
    - Outcome<E>: success without a value, or an error (a PHP `void` call that may throw).
 */
module Wrappers {

  datatype Option<+T> = None | Some(value: T) {

    /** The encapsulated value, or `default` when there is none. */
    function GetOr(default: T): T {
      match this
      case Some(v) => v
      case None => default
    }
  }

  datatype Result<+R, +E> = Success(value: R) | Failure(error: E)

  datatype Outcome<+E> = Pass | Fail(error: E)
}
