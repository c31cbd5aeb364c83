/** The HTTP error responses the handlers and services produce. */
module Http {

  /**
    `HTTPException(status_code, detail)` raised by the code, or the framework's
    rejection of query parameters that fail their declared bounds (status 422),
    listing the offending parameters in declaration order.
  */
  datatype HttpError =
    | HttpException(status: nat, detail: string)
    | RequestValidationError(params: seq<string>)
  {
    function StatusCode(): nat
    {
      if HttpException? then status else UNPROCESSABLE_ENTITY
    }
  }

  const OK: nat := 200
  const CREATED: nat := 201
  const BAD_REQUEST: nat := 400
  const NOT_FOUND: nat := 404
  const CONFLICT: nat := 409
  const UNSUPPORTED_MEDIA_TYPE: nat := 415
  const UNPROCESSABLE_ENTITY: nat := 422
  const INTERNAL_SERVER_ERROR: nat := 500

  /** What the server answers for an exception the handler does not catch. */
  function UnhandledException(): (e: HttpError)
    ensures e.StatusCode() == INTERNAL_SERVER_ERROR
  {
    HttpException(INTERNAL_SERVER_ERROR, "Internal Server Error")
  }

  /** A successful response: its status code and body. */
  datatype Reply<+T> = Reply(status: nat, body: T)
}
