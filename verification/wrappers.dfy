/** Failure-carrying result types shared by every layer of the model. */
module Wrappers {

  /** A value that may be absent: Python's `Optional[T]` (None or a value). */
  datatype Option<+T> = None | Some(value: T) {

    /** The carried value, or `default` when there is none. */
    function GetOr(default: T): T {
      match this
      case Some(v) => v
      case None => default
    }
  }

  /** The outcome of an operation that the source lets raise an exception:
      either the value it returns or the error it raises. */
  datatype Result<+T, +E> = Success(value: T) | Failure(error: E)
}
