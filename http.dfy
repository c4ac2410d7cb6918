/**
 * How an operation's outcome leaves the service: a value, an exception
 * object handed back as if it were a value, or a thrown exception.
 */
module Http {
  import opened TaskEntity

  datatype Status = BadRequest | NotFound | Conflict | InternalServerError

  datatype Exception =
    | HttpException(message: string, status: Status)
    /** A plain `Error`, which carries no HTTP status. */
    | PlainError(message: string)
    /** The store refused a write that would break a column constraint. */
    | QueryFailed(violated: Constraint)

  datatype Reply<+T> =
    /** The operation resolves with its result. */
    | Ok(value: T)
    /** The operation resolves with an exception object instead of throwing it. */
    | ErrorValue(exception: Exception)
    /** The operation rejects with an exception. */
    | Thrown(exception: Exception)
}
