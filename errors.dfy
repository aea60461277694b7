/** The four registered error handlers: each maps an HTTP error status to
    the envelope `{success: false, error: code, message}`. */
module Errors {
  import opened Entities

  /** The failure kinds the handlers abort with. */
  datatype Status = BadRequest | NotFound | Unprocessable | InternalError

  /** The HTTP status code of each failure kind. */
  function Code(s: Status): int {
    match s
    case BadRequest => 400
    case NotFound => 404
    case Unprocessable => 422
    case InternalError => 500
  }

  /** Which failure kind, if any, has a handler registered for `code`. */
  function StatusOf(code: int): (r: Option<Status>)
    ensures r.Some? <==> code in {400, 404, 422, 500}
    ensures r.Some? ==> Code(r.value) == code
  {
    if code == 400 then Some(BadRequest)
    else if code == 404 then Some(NotFound)
    else if code == 422 then Some(Unprocessable)
    else if code == 500 then Some(InternalError)
    else None
  }

  /** The fixed message each handler puts in its envelope. */
  function ErrorMessage(s: Status): string {
    match s
    case BadRequest => "bad request"
    case NotFound => "resource not found."
    case Unprocessable => "unprocessible entity"
    case InternalError => "internal server error"
  }

  datatype ErrorBody = ErrorBody(success: bool, error: int, message: string)

  /** The JSON body an aborted request is answered with. */
  function Envelope(s: Status): (e: ErrorBody)
    ensures !e.success
    ensures StatusOf(e.error) == Some(s)
    ensures e.message == ErrorMessage(s)
  {
    ErrorBody(false, Code(s), ErrorMessage(s))
  }

  /** The status code and the message are a round trip: the code carried in
      an envelope identifies its failure kind, and no two kinds share a code
      or a message. */
  lemma EnvelopesIdentifyStatus(s: Status, t: Status)
    ensures StatusOf(Code(s)) == Some(s)
    ensures s != t ==> Code(s) != Code(t) && ErrorMessage(s) != ErrorMessage(t)
    ensures Envelope(s) == Envelope(t) ==> s == t
  {
  }

  /** The messages each error handler returns, as the source fixes them. */
  lemma ErrorMessageTable()
    ensures Envelope(BadRequest) == ErrorBody(false, 400, "bad request")
    ensures Envelope(NotFound) == ErrorBody(false, 404, "resource not found.")
    ensures Envelope(Unprocessable) == ErrorBody(false, 422, "unprocessible entity")
    ensures Envelope(InternalError) == ErrorBody(false, 500, "internal server error")
  {
  }
}
