/** The pieces of the HTTP surface the controllers share: the application's
    error type, the catch block every handler ends with, and cookies. */
module Http {

  /** `ApiError(message, statusCode)`: the one exception type the handlers
      translate into a status code of its own. */
  datatype ApiError = ApiError(message: string, statusCode: int)

  /** What a handler's `try` block can throw: an `ApiError`, or anything
      else (a TypeError, a schema validation error, a driver error). */
  datatype Thrown = Api(error: ApiError) | Untyped

  /** `res.status(s).json({ message })`. */
  datatype Reply = Reply(status: int, message: string)

  const InternalServerError: string := "Internal server error"

  /** The catch block shared by every handler: an `ApiError` keeps its own
      status and message, anything else becomes a bare 500. */
  function Catch(e: Thrown): (r: Reply)
    ensures e.Api? ==> r == Reply(e.error.statusCode, e.error.message)
    ensures e.Untyped? ==> r == Reply(500, InternalServerError)
  {
    match e
    case Api(err) => Reply(err.statusCode, err.message)
    case Untyped => Reply(500, InternalServerError)
  }

  /** `res.cookie(name, value, ...)` and `res.clearCookie(name)`; the
      cookie options (lifetime, `secure`) are not modelled. */
  datatype Cookie = SetCookie(name: string, value: string) | ClearCookie(name: string)
}
