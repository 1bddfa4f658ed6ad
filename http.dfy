/** The action results the endpoints return. */
module Http {
  import opened Wrappers

  datatype Response<+T> =
    | Ok(body: T)                          // 200
    | Created(id: int, body: T)            // 201 from CreatedAtAction
    | NoContent                            // 204
    | BadRequest(message: Option<string>)  // 400, with or without a message body
    | ValidationProblem                    // 400 from ValidationProblem(ModelState)
    | NotFound                             // 404
    | Conflict(reason: string)             // 409
    | ServerError                          // 500 from an unhandled exception
}
