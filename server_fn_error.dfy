/**
 * The error type of `src/lib/server-fn-error.ts`: a `ServerFnError` carries
 * one of seven error codes, a message and an HTTP status code, which is the
 * caller's when one is given and otherwise a fixed default for the code.
 */
module ServerFnErrors {
  import opened Results

  /** The seven codes of `ServerFnErrorCode`. */
  datatype ErrorCode =
    | NotFound
    | Unauthorized
    | Forbidden
    | ValidationError
    | RateLimitExceeded
    | OperationFailed
    | InternalError

  /** The codes whose failure lies with the server rather than with the request. */
  predicate IsServerFault(code: ErrorCode)
  {
    code == OperationFailed || code == InternalError
  }

  /**
   * `getDefaultStatusCode`: the status table, total over the seven codes.
   * Every default is an HTTP error status, and it is a server error (5xx)
   * exactly for the two server-fault codes; the other five get a client
   * error (4xx).
   */
  function DefaultStatusCode(code: ErrorCode): (status: int)
    ensures 400 <= status <= 599
    ensures status >= 500 <==> IsServerFault(code)
    ensures IsServerFault(code) ==> status == 500
  {
    match code
    case NotFound => 404
    case Unauthorized => 401
    case Forbidden => 403
    case ValidationError => 400
    case RateLimitExceeded => 429
    case OperationFailed => 500
    case InternalError => 500
  }

  /**
   * The status `statusCode ?? getDefaultStatusCode(code)` selects: the
   * argument whenever it is present, whatever its value (0 included), and
   * the default only when it is absent.
   */
  function ChosenStatusCode(code: ErrorCode, statusCode: Option<int>): (status: int)
    ensures statusCode.Some? ==> status == statusCode.value
    ensures statusCode.None? ==> 400 <= status <= 599 && (status >= 500 <==> IsServerFault(code))
  {
    match statusCode
    case Some(explicit) => explicit
    case None => DefaultStatusCode(code)
  }

  /** An immutable `ServerFnError`: every field is assigned once, by the constructor. */
  class ServerFnError {
    const name: string
    const code: ErrorCode
    const message: string
    const statusCode: int

    /**
     * `new ServerFnError(code, message, statusCode?)`: the name is always
     * "ServerFnError", code and message are kept as given, and the status is
     * the explicit one when present, the code's default otherwise.
     */
    constructor (code: ErrorCode, message: string, statusCode: Option<int>)
      ensures this.name == "ServerFnError"
      ensures this.code == code && this.message == message
      ensures this.statusCode == ChosenStatusCode(code, statusCode)
      ensures statusCode.Some? ==> this.statusCode == statusCode.value
      ensures statusCode.None? ==> this.statusCode == DefaultStatusCode(code)
    {
      this.name := "ServerFnError";
      this.code := code;
      this.message := message;
      this.statusCode := ChosenStatusCode(code, statusCode);
    }
  }
}
