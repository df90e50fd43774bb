/**
 * What a request handler sends back: a status code with the payload of a
 * successful request, or a status code with the message (and, for server
 * errors, the underlying error's message) of a failed one.
 */
module Responses {
  import opened Wrappers

  datatype Response<+T> =
    | Success(status: nat, data: T)
    | Failure(status: nat, message: string, error: Option<string>)

  const OK: nat := 200
  const Created: nat := 201
  const BadRequest: nat := 400
  const NotFound: nat := 404
  const ServerError: nat := 500
}
