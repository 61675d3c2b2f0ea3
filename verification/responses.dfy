/** Error kinds, HTTP status codes and the JSON envelope built by
    `create_error_response` / `create_success_response`. */
module Responses {
  import opened Wrappers

  datatype ErrorKind = BadRequest | Unauthorized | NotFound | Conflict | Internal

  /** An error answer: its kind (hence its status code) and the message it carries. */
  datatype Error = Error(kind: ErrorKind, message: string)

  function StatusCode(kind: ErrorKind): int {
    match kind
    case BadRequest => 400
    case Unauthorized => 401
    case NotFound => 404
    case Conflict => 409
    case Internal => 500
  }

  const OK: int := 200
  const CREATED: int := 201

  /** `str(e)` of werkzeug's `BadRequest(description)`: the code and reason come first. */
  function BadRequestText(description: string): string {
    "400 Bad Request: " + description
  }

  /** `str(e)` of the `NotFound` that `get_or_404` raises for a missing row. */
  const NOT_FOUND_TEXT: string :=
    "404 Not Found: The requested URL was not found on the server. "
    + "If you entered the URL manually please check your spelling and try again."

  /** The `response` field: a message, or the data a successful call returns. */
  datatype Reply<P> = Text(text: string) | Data(payload: P)

  /** `({"status": ..., "response": ...}, status_code)`. */
  datatype Envelope<P> = Envelope(status: string, response: Reply<P>, code: int)

  function ErrorResponse<P>(message: string, code: int): Envelope<P> {
    Envelope("error", Text(message), code)
  }

  function SuccessResponse<P>(payload: P, code: int): Envelope<P> {
    Envelope("success", Data(payload), code)
  }

  /** The envelope a handler sends for its outcome: "success" with the data and
      the handler's success code, or "error" with the message and the code of
      the error's kind. */
  function Respond<P>(r: Result<P, Error>, okCode: int): (e: Envelope<P>)
    requires okCode < 400
    ensures e.status == "success" <==> r.Success?
    ensures e.status == "error" <==> r.Failure?
    ensures e.code >= 400 <==> r.Failure?
    ensures r.Success? ==> e.response == Data(r.value) && e.code == okCode
    ensures r.Failure? ==> e.response == Text(r.error.message) && e.code == StatusCode(r.error.kind)
  {
    match r
    case Success(v) => SuccessResponse(v, okCode)
    case Failure(err) => ErrorResponse(err.message, StatusCode(err.kind))
  }

  /** A handler's outcome without its new store: what goes into the envelope. */
  function ReplyOf<S, P>(r: Result<(S, P), Error>): (o: Result<P, Error>)
    ensures o.Success? <==> r.Success?
    ensures r.Success? ==> o.value == r.value.1
    ensures r.Failure? ==> o.error == r.error
  {
    match r
    case Success((_, p)) => Success(p)
    case Failure(e) => Failure(e)
  }
}
