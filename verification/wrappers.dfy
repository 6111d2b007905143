/** Option and Result, for JavaScript's `null`/`NaN` outcomes and for the
    errors a `try` block absorbs. */
module Wrappers {

  datatype Option<+T> = None | Some(value: T) {

    /** The wrapped value, or `default` when there is none. */
    function GetOr(default: T): T
    {
      match this
      case Some(v) => v
      case None => default
    }
  }

  datatype Result<+T, +E> = Success(value: T) | Failure(error: E) {

    /** Forgets the error, keeping only whether there was a value. */
    function ToOption(): Option<T>
    {
      match this
      case Success(v) => Some(v)
      case Failure(_) => None
    }
  }
}
