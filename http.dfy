/** The response envelope the controllers send: a status code with either the
    payload of a success or the message of a failure. */
module Http {

  const Ok200: nat := 200
  const Created201: nat := 201
  const BadRequest400: nat := 400
  const Unauthorized401: nat := 401
  const NotFound404: nat := 404

  datatype Reply<T> =
    | Ok(code: nat, data: T)
    | Fail(code: nat, message: string)
}
