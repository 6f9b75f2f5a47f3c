/** The outcome types the handlers return: FluentResults' `Result` with its list of
    errors, the `NotFoundError` subtype the controllers look for, and the exceptions
    that `SaveChanges` may throw past a handler. */
module Results {

  /** An error reason: the service's `NotFoundError`, or FluentResults' plain `Error`. */
  datatype Error = NotFound(message: string) | Plain(message: string)

  /** `Result<T>`: a value, or the errors that made the operation fail. */
  datatype Result<T> = Ok(value: T) | Fail(errors: seq<Error>)

  /** The exceptions that can escape a handler: those `SaveChanges` throws for a primary
      key that is already present, an email that the unique index already holds, or a
      row to update or delete that is not there; and AutoMapper's for a pair of types
      no profile maps. */
  datatype Exception = DuplicateKey | DuplicateEmail | RowMissing | MissingTypeMap

  /** How a handler ends: it returns a `Result`, or an exception propagates out of it. */
  datatype Outcome<T> = Returned(result: Result<T>) | Raised(error: Exception)

  /** One plain `Error` per message, in order: `Result.Fail(IEnumerable<string>)`. */
  function PlainErrors(messages: seq<string>): (errors: seq<Error>)
    ensures |errors| == |messages|
    ensures forall i :: 0 <= i < |messages| ==> errors[i] == Plain(messages[i])
  {
    if messages == [] then [] else [Plain(messages[0])] + PlainErrors(messages[1..])
  }

  /** `result.HasError<NotFoundError>()` on a failed result. */
  predicate HasNotFound(errors: seq<Error>) {
    exists i :: 0 <= i < |errors| && errors[i].NotFound?
  }

  /** Errors made from messages alone never include a `NotFoundError`. */
  lemma PlainErrorsAreNotNotFound(messages: seq<string>)
    ensures !HasNotFound(PlainErrors(messages))
  {
  }
}
