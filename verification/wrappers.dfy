/** Optional values and results with an error, shared by every module. */
module Wrappers {

  /** A value that may be absent (Kotlin `T?`, or C `nullptr`). */
  datatype Option<+T> = None | Some(value: T) {

    predicate IsFailure() {
      None?
    }

    function PropagateFailure<U>(): Option<U>
      requires None?
    {
      None
    }

    function Extract(): T
      requires Some?
    {
      value
    }

    /** The held value, or `default` when absent (Kotlin `?:`). */
    function GetOr(default: T): T {
      match this
      case Some(v) => v
      case None => default
    }
  }

  /** A value or the error that prevented computing it (a thrown exception). */
  datatype Result<+T, +E> = Success(value: T) | Failure(error: E)
}
