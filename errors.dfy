/**
 * The error side of the HTTP interface: the five status codes the application
 * registers handlers for, the fixed JSON body each handler sends, and the
 * result type the request handlers return (a payload, or the status that
 * `abort` raises).
 */
module Errors {
  import opened Wrappers

  /** The statuses that have an error handler. */
  datatype ErrorCode = BadRequest | NotFound | MethodNotAllowed | Unprocessable | InternalServerError

  /** What a request handler produces: its success payload, or an aborted request. */
  datatype Result<T> = Ok(value: T) | Err(error: ErrorCode)

  /** The JSON body `{success, error, message}` of an error response. */
  datatype ErrorBody = ErrorBody(success: bool, error: int, message: string)

  /** The HTTP status code of each error. */
  function StatusOf(e: ErrorCode): (status: int)
    ensures 400 <= status < 600
  {
    match e
    case BadRequest => 400
    case NotFound => 404
    case MethodNotAllowed => 405
    case Unprocessable => 422
    case InternalServerError => 500
  }

  /** The error whose handler is registered for an HTTP status, if any. */
  function ErrorCodeOf(status: int): (r: Option<ErrorCode>)
    ensures r.Some? ==> StatusOf(r.value) == status
    ensures r.None? ==> forall e: ErrorCode :: StatusOf(e) != status
  {
    if status == 400 then Some(BadRequest)
    else if status == 404 then Some(NotFound)
    else if status == 405 then Some(MethodNotAllowed)
    else if status == 422 then Some(Unprocessable)
    else if status == 500 then Some(InternalServerError)
    else None
  }

  /** Looking up the error of a status undoes StatusOf: no two errors share a status. */
  lemma ErrorCodeOfStatus(e: ErrorCode)
    ensures ErrorCodeOf(StatusOf(e)) == Some(e)
  {
  }

  /** The message text of each handler. */
  function Message(e: ErrorCode): string
  {
    match e
    case BadRequest => "Bad request"
    case NotFound => "Resource was not found"
    case MethodNotAllowed => "Method not found"
    case Unprocessable => "Unprocessable entity"
    case InternalServerError => "Internal Server error"
  }

  /** The body an error handler returns: never a success, carrying its own status and message. */
  function HandleError(e: ErrorCode): (b: ErrorBody)
    ensures !b.success && b.error == StatusOf(e)
    ensures e == BadRequest ==> b.message == "Bad request"
    ensures e == NotFound ==> b.message == "Resource was not found"
    ensures e == MethodNotAllowed ==> b.message == "Method not found"
    ensures e == Unprocessable ==> b.message == "Unprocessable entity"
    ensures e == InternalServerError ==> b.message == "Internal Server error"
  {
    ErrorBody(false, StatusOf(e), Message(e))
  }

  /**
   * The body sent for an aborted request with this status: one exists exactly
   * for the five registered statuses, and it is the body of the handler
   * registered for that status, so it echoes the status and carries that
   * handler's message.
   */
  function ErrorResponse(status: int): (r: Option<ErrorBody>)
    ensures r.Some? <==> status in {400, 404, 405, 422, 500}
    ensures r.Some? ==> !r.value.success && r.value.error == status
    ensures forall e: ErrorCode :: StatusOf(e) == status ==> r == Some(HandleError(e))
  {
    match ErrorCodeOf(status)
    case Some(e) => Some(HandleError(e))
    case None => None
  }

  /** The handlers' messages tell the five errors apart. */
  lemma MessagesDistinct(a: ErrorCode, b: ErrorCode)
    requires a != b
    ensures Message(a) != Message(b)
  {
  }
}
