/** What a controller action can end in: an action result, or an exception
    that escapes the action and is turned into a response by the
    exception-handling middleware. */
module Http {

  /** The exceptions the middleware tells apart. `Unexpected` stands for any
      other exception; the one the model produces is the database's
      rejection of a row whose foreign key names no parent. */
  datatype Exception =
    | BoardNotFound(message: string)
    | BoardAccessDenied(message: string)
    | Unexpected(message: string)

  /** Action results (`Ok`, `NoContent`, `CreatedAtAction`, `BadRequest`,
      `NotFound`, `Forbid`), or an exception thrown out of the action. */
  datatype Status =
    | Ok
    | NoContent
    | Created(id: int)
    | BadRequest(message: string)
    | NotFound(message: string)
    | Forbid
    | Threw(ex: Exception)
  {
    /** True for the 2xx results. */
    predicate Succeeded() {
      Ok? || NoContent? || Created?
    }
  }

  /** The message a failed `SaveChanges` carries; the middleware never shows it. */
  const ForeignKeyViolation: string := "FOREIGN KEY constraint failed"
}

/** `ExceptionHandlingMiddleware`: runs the rest of the pipeline and turns an
    escaping exception into a JSON error response. */
module ExceptionHandling {
  import opened Wrappers
  import opened Http

  /** Status code, content type and the `message` field of the JSON body. */
  datatype ErrorResponse = ErrorResponse(statusCode: int, contentType: string, message: string)

  const GenericMessage: string := "An unexpected error occurred."

  /** The content type the reply ends with. `WriteErrorResponse` first sets
      `text/json`, but `WriteAsJsonAsync` then overwrites it with the JSON
      default, so the earlier value never reaches the client. */
  const JsonContentType: string := "application/json; charset=utf-8"

  /** `WriteErrorResponse`: the status code and message given, serialised
      as JSON. */
  function WriteErrorResponse(statusCode: int, message: string): (r: ErrorResponse)
    ensures r.statusCode == statusCode && r.message == message
    ensures r.contentType == JsonContentType
  {
    ErrorResponse(statusCode, JsonContentType, message)
  }

  /** `Invoke`, given what the next handler threw (None: it returned). The
      status code tells the exception kind; the two board exceptions show
      their own message, any other exception the same fixed text, so its own
      message never reaches the client. */
  function Invoke(thrown: Option<Exception>): (r: Option<ErrorResponse>)
    ensures r.None? <==> thrown.None?
    ensures r.Some? ==> r.value.contentType == JsonContentType
    ensures r.Some? ==> (r.value.statusCode == 404 <==> thrown.value.BoardNotFound?)
    ensures r.Some? ==> (r.value.statusCode == 403 <==> thrown.value.BoardAccessDenied?)
    ensures r.Some? ==> (r.value.statusCode == 500 <==> thrown.value.Unexpected?)
    ensures r.Some? && !thrown.value.Unexpected? ==> r.value.message == thrown.value.message
    ensures r.Some? && thrown.value.Unexpected? ==> r.value.message == GenericMessage
  {
    match thrown
    case None => None
    case Some(BoardNotFound(m)) => Some(WriteErrorResponse(404, m))
    case Some(BoardAccessDenied(m)) => Some(WriteErrorResponse(403, m))
    case Some(Unexpected(_)) => Some(WriteErrorResponse(500, GenericMessage))
  }
}
