/**
 * What the two controllers share: document ids, the reply envelope
 * `{success: true, message, data?}`, the HTTP errors the handlers throw,
 * and the rejections of the persistence layer that they let through.
 */
module Api {
  import opened Wrappers

  /** A document id as the handlers receive it: the `:id` route parameter. */
  type Id = string

  /** A date value; its parsing and arithmetic are not modelled. */
  datatype Date = Date(epochMillis: int)

  /** Why the collection refused a write. */
  datatype DbError =
    | ValidationFailed(paths: set<string>)  // schema validators failed on these paths
    | DuplicateKey(field: string)           // a unique index (`_id`, `isbn`) already holds the value

  /**
   * The outcome of one handler: the success envelope it returns, the
   * `HttpException` it throws, or a rejection of the store that it does
   * not catch and that therefore propagates out of the handler.
   */
  datatype Reply<+T> =
    | Success(message: string, data: Option<T>)
    | HttpError(status: nat, message: string)
    | Rejected(cause: DbError)

  const BadRequest: nat := 400
  const NotFound: nat := 404

  const InvalidIdMessage: string := "Invalid ID"

  /** Mongoose's `required` check on a String path: present and not the empty string. */
  predicate RequiredString(v: Option<string>) {
    v.Some? && v.value != ""
  }
}
