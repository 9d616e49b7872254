/** Option and Result: the absent values and the raised errors of the modelled code. */
module Wrappers {

  /** `None` stands for JavaScript's `null`/`undefined` and Python's `None`. */
  datatype Option<+T> = None | Some(value: T) {
    function GetOr(default: T): T {
      match this
      case Some(v) => v
      case None => default
    }
  }

  /** `Failure` stands for an exception whose message is `error`. */
  datatype Result<+T, +E> = Success(value: T) | Failure(error: E)
}
