/** Failure-carrying result types shared by every module of the model. */
module Wrappers {

  /** An optional value; also the model of a Go pointer (`None` is `nil`)
      and of a nullable SQL column (`None` is NULL). */
  datatype Option<+T> = None | Some(value: T)
  {
    function GetOr(default: T): T
    {
      match this
      case Some(v) => v
      case None => default
    }
  }

  /** A value or the error a Go function returned beside it. */
  datatype Result<+R, +E> = Success(value: R) | Failure(error: E)

  /** The outcome of a Go function that returns only an `error`. */
  datatype Outcome<+E> = Pass | Fail(error: E)
}
