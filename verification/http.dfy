/** The response shape shared by the REST views: a status code and either a body or an error message. */
module Http {

  const StatusOk: nat := 200
  const StatusCreated: nat := 201
  const StatusBadRequest: nat := 400
  const StatusForbidden: nat := 403
  const StatusNotFound: nat := 404
  /** What the framework answers when a view lets an exception (an IntegrityError, say) escape. */
  const StatusServerError: nat := 500

  /** The framework's body for a lookup that finds nothing. */
  const NotFoundMessage: string := "Not found."

  datatype Response<+T> = Ok(status: nat, body: T) | Err(status: nat, message: string)
}
