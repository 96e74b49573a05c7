/** The shapes of a nullable field (Option), of a call that returns a value or
    throws (Result), and of a call that returns nothing or throws (Outcome). */
module Wrappers {

  /** A value that may be absent; stands for PHP's nullable fields. */
  datatype Option<+T> = None | Some(value: T)

  /** The value of a call that either returns or throws. */
  datatype Result<+T, +E> = Success(value: T) | Failure(error: E)

  /** The value of a call that returns nothing or throws. */
  datatype Outcome<+E> = Pass | Fail(error: E)
}
