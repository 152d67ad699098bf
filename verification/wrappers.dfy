/** The Option type used wherever the Kotlin code returns a nullable value. */
module Wrappers {

  datatype Option<+T> = None | Some(value: T) {

    /** Kotlin's `?:` — the value, or `default` when it is null. */
    function GetOr(default: T): T {
      match this
      case Some(v) => v
      case None => default
    }
  }

  /** Either a value or a message, for operations that report an error to the user. */
  datatype Result<+R> = Ok(value: R) | Err(message: string)
}
