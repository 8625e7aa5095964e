/** Failure-carrying values shared by the whole model: JavaScript's `null`/`undefined`
    results become `Option`, thrown errors become `Result`'s `Failure` with the error message. */
module Wrappers {

  datatype Option<+T> = None | Some(value: T) {
    /** `x ?? d` / `x || d` for a present-or-absent value. */
    function GetOr(default: T): T {
      match this
      case Some(v) => v
      case None => default
    }
  }

  datatype Result<+R> = Success(value: R) | Failure(error: string)

  /** A completed operation that returns nothing, or the message of the error it threw. */
  datatype Outcome = Pass | Fail(error: string)
}
