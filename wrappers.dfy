/** Failure-compatible wrappers shared by every module of the model. */
module Wrappers {

  /** A value that may be missing: SQL NULL, Python None, a failed parse. */
  datatype Option<+T> = None | Some(value: T) {
    predicate IsFailure() {
      None?
    }

    function PropagateFailure<U>(): Option<U>
      requires None?
    {
      None
    }

    function Extract(): T
      requires Some?
    {
      value
    }

    function GetOr(default: T): T {
      match this
      case Some(v) => v
      case None => default
    }
  }

  /** The outcome of an operation that either yields a value or raises. */
  datatype Result<+R, +E> = Success(value: R) | Failure(error: E)
}
