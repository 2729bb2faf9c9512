/** A value that may be absent (a nullable column, an optional form field),
    and the outcome of a client handler that may throw. */
module Wrappers {

  datatype Option<+T> = None | Some(value: T)

  /** A handler either returns its value or throws (a JavaScript `TypeError`, say). */
  datatype Result<+T> = Success(value: T) | Failure(error: string)

}
