/** The `@app.errorhandler` table: which error kinds exist, their status codes, and the JSON body each handler sends. */
module Errors {
  import opened Wrappers

  datatype ErrorKind = BadRequest | NotFound | MethodNotAllowed | Unprocessable | InternalServerError

  /** The status code a handler answers with; the handler registered for that code is this one. */
  function Code(k: ErrorKind): (code: int)
    ensures HandlerFor(code) == Some(k)
  {
    match k
    case BadRequest => 400
    case NotFound => 404
    case MethodNotAllowed => 405
    case Unprocessable => 422
    case InternalServerError => 500
  }

  /** The handler registered for a status code, if any. */
  function HandlerFor(code: int): (h: Option<ErrorKind>)
    ensures h.Some? ==> 400 <= code < 600
    ensures h.None? ==> code !in {400, 404, 405, 422, 500}
  {
    if code == 400 then Some(BadRequest)
    else if code == 404 then Some(NotFound)
    else if code == 405 then Some(MethodNotAllowed)
    else if code == 422 then Some(Unprocessable)
    else if code == 500 then Some(InternalServerError)
    else None
  }

  /** An error response body; `success` is `None` when the body has no `success` key. */
  datatype ErrorBody = ErrorBody(success: Option<bool>, message: string)

  /** The body each handler returns. Only the 422 handler omits `success`. */
  function Body(k: ErrorKind): (b: ErrorBody)
    ensures b.success == (if k == Unprocessable then None else Some(false))
    ensures b.message != ""
  {
    match k
    case BadRequest => ErrorBody(Some(false), "Bad Request")
    case NotFound => ErrorBody(Some(false), "Resource not found")
    case MethodNotAllowed => ErrorBody(Some(false), "Method not allowed")
    case Unprocessable => ErrorBody(None, "Unable to process request")
    case InternalServerError => ErrorBody(Some(false), "Internal server error")
  }

  /** Every error kind is served by its own handler, and a handler serves only its own code. */
  lemma HandlerRoundTrip(k: ErrorKind, code: int)
    ensures HandlerFor(Code(k)) == Some(k)
    ensures HandlerFor(code).Some? ==> Code(HandlerFor(code).value) == code
  {
  }

  /** The message text identifies the error kind. */
  lemma MessagesDistinct(k1: ErrorKind, k2: ErrorKind)
    ensures Body(k1).message == Body(k2).message ==> k1 == k2
  {
  }
}
