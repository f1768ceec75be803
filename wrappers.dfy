/** Option and Result values shared by every module of the model. */
module Wrappers {

  /** A value that may be absent: JavaScript's `undefined`/`null` or a failed lookup. */
  datatype Option<+T> = None | Some(value: T)
  {
    /** The contained value, or `default` when absent (JavaScript's `??`). */
    function GetOr(default: T): T
    {
      match this
      case Some(v) => v
      case None => default
    }
  }

  /** The outcome of an operation that either produces a value or throws. */
  datatype Result<+R, +E> = Success(value: R) | Failure(error: E)
}
