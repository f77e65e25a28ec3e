/** Failure-compatible values standing in for Kotlin's nullable types and `Result`. */
module Wrappers {

  /** A nullable value: `None` is Kotlin's `null`. */
  datatype Option<+T> = None | Some(value: T) {

    /** Kotlin's `?:` elvis operator. */
    function GetOr(default: T): T {
      match this
      case Some(v) => v
      case None => default
    }
  }

  /** Kotlin's `Result<T>`: a value or a caught exception (whose details the model drops). */
  datatype Result<+T> = Success(value: T) | Failure {

    /** `Result.getOrNull()`. */
    function ToOption(): Option<T> {
      match this
      case Success(v) => Some(v)
      case Failure => None
    }
  }
}
