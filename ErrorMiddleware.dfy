/** `errorHandler` of backend/src/middleware/error.middleware.ts: turns
    any error into one `(status, { status: 'error', message })` response. */
module ErrorMiddleware {
  import opened Wrappers
  import opened Strings
  import AuthMiddleware

  const RateLimitMarker := "API rate limit exceeded"
  const RateLimitMessage := "GitHub API rate limit exceeded. Please try again later."
  const InternalServerError := "Internal server error"

  /** What can reach the handler. Only `AppError`, this file's class, passes
      `instanceof AppError`; the like-named class of the auth middleware does not. */
  datatype Error =
    | AppError(statusCode: int, message: string)
    | AuthError(error: AuthMiddleware.AuthAppError)
    | OtherError(name: string, message: string)
  {
    function Message(): string {
      match this
      case AppError(_, m) => m
      case AuthError(e) => e.message
      case OtherError(_, m) => m
    }

    function Name(): string {
      match this
      case AppError(_, _) => "AppError"
      case AuthError(_) => "AppError"
      case OtherError(n, _) => n
    }
  }

  datatype Body = Body(status: string, message: string)
  datatype Response = Response(statusCode: int, body: Body)

  /** `new AppError(statusCode, message)`. */
  function NewAppError(statusCode: int, message: string): (e: Error)
    ensures e.AppError? && e.statusCode == statusCode && e.Message() == message && e.Name() == "AppError"
  {
    AppError(statusCode, message)
  }

  /** `errorHandler(err, req, res, next)`: one response per call, `next` is never used. */
  function ErrorHandler(err: Error): (r: Response)
    ensures r.body.status == "error"
    ensures err.AppError? ==> r.statusCode == err.statusCode && r.body.message == err.message
    ensures !err.AppError? ==>
      && (r.statusCode == 429 <==> Includes(err.Message(), RateLimitMarker))
      && (r.statusCode == 429 || r.statusCode == 500)
      && r.body.message == (if r.statusCode == 429 then RateLimitMessage else InternalServerError)
  {
    if err.AppError? then
      Response(err.statusCode, Body("error", err.message))
    else if Includes(err.Message(), RateLimitMarker) then
      Response(429, Body("error", RateLimitMessage))
    else
      Response(500, Body("error", InternalServerError))
  }

  /** The `AppError` test comes first: an `AppError` whose message mentions
      the rate limit keeps its own status and message. */
  lemma AppErrorTakesPrecedence(statusCode: int, p: string, q: string)
    ensures ErrorHandler(AppError(statusCode, p + RateLimitMarker + q))
         == Response(statusCode, Body("error", p + RateLimitMarker + q))
  {
    IncludesInfix(p, RateLimitMarker, q);
  }

  /** Any other error whose message mentions the rate limit, wherever, gets 429. */
  lemma RateLimitAnywhere(name: string, p: string, q: string)
    ensures ErrorHandler(OtherError(name, p + RateLimitMarker + q))
         == Response(429, Body("error", RateLimitMessage))
  {
    IncludesInfix(p, RateLimitMarker, q);
  }

  /** The auth middleware's rejections, as the code is written, are not
      recognised as `AppError` and come back as 500 "Internal server error". */
  lemma AuthRejectionAsWritten(header: Option<string>)
    requires AuthMiddleware.ParseAuthorization(header).Failure?
    ensures ErrorHandler(AuthError(AuthMiddleware.ParseAuthorization(header).error))
         == Response(500, Body("error", InternalServerError))
  {
  }

  /** The intended error for an auth rejection: this file's `AppError`,
      with the status code and message the auth middleware chose. */
  function RaiseAuthRejection(e: AuthMiddleware.AuthAppError): (err: Error)
    ensures ErrorHandler(err) == Response(e.statusCode, Body("error", e.message))
  {
    AppError(e.statusCode, e.message)
  }

  /** The response a request rejected by the auth middleware receives: 401
      with the middleware's own message. */
  function RejectionResponse(header: Option<string>): (r: Response)
    requires AuthMiddleware.ParseAuthorization(header).Failure?
    ensures r.statusCode == 401
    ensures r.body.message == AuthMiddleware.ParseAuthorization(header).error.message
  {
    ErrorHandler(RaiseAuthRejection(AuthMiddleware.ParseAuthorization(header).error))
  }
}
