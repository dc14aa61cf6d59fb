/** Failure-carrying values used throughout the model: `Option` stands for a
    JavaScript value that may be `null`/`undefined`, `Result` for a promise
    that either resolves or rejects with a message. */
module Wrappers {

  datatype Option<+T> = None | Some(value: T) {
    /** The value, or `default` when absent (the `??` operator). */
    function GetOr(default: T): T {
      match this
      case Some(v) => v
      case None => default
    }
  }

  datatype Result<+R, +E> = Success(value: R) | Failure(error: E)

  /** The outcome of a remote call that returns nothing useful. */
  type Ack = Result<(), string>
}
