/** Values shared by every handler: optional request fields, the
    `{success: false, error}` failure responses, and the pair of "store after
    the request" and "what the request answered" that each handler yields. */
module Base {

  datatype Option<+T> = None | Some(value: T)

  /** A JavaScript request-body field is falsy when it is missing or is the
      empty string; the handlers' `!field` guards test exactly this. */
  predicate Falsy(field: Option<string>) {
    field.None? || field.value == ""
  }

  /** An error response: its HTTP status and its `error` message. */
  datatype Failure = Failure(status: nat, message: string)

  /** The `catch` branch every handler ends with: a thrown store error
      (failed schema validation, a cast error, a duplicate key). */
  const ServerError := Failure(500, "Server error")

  datatype Result<+T> = Ok(value: T) | Err(failure: Failure)

  /** What a request leaves behind: the store afterwards and the answer. */
  datatype Reply<S, T> = Reply(store: S, result: Result<T>)
}
