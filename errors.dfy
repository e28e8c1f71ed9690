/** Optional values and the error kinds the managers raise. */
module Errors {

  datatype Option<+T> = None | Some(value: T)

  /** The three kinds of failure the managers surface: a ValueError raised by a
      validation or lookup, and an IntegrityError raised by the store when a
      UNIQUE or PRIMARY KEY constraint is violated. */
  datatype Error =
    | Invalid(message: string)
    | NotFound(message: string)
    | Conflict(message: string)

  /** The outcome of an operation that returns nothing on success. */
  datatype Outcome = Ok | Fail(error: Error)

  /** The outcome of an operation that returns a value on success. */
  datatype Result<+T> = Success(value: T) | Failure(error: Error)
}
