/** The request-level vocabulary shared by the server controllers: the
    authenticated caller and the error responses a handler can send. */
module Api {

  /** The `role` enum of the user schema. */
  datatype Role = Student | Lecturer | Admin

  /** `req.user` after authentication: its id (as `req.user._id.toString()`)
      and its role, looked up from the stored user record. */
  datatype Principal = Principal(id: string, role: Role)

  /** An error response: its HTTP status class and its `message`. */
  datatype ApiError =
    | BadRequest(message: string)
    | Unauthorized(message: string)
    | Forbidden(message: string)
    | NotFound(message: string)
    | ServerError(message: string)

  function Status(e: ApiError): (code: int)
    ensures 400 <= code < 600
  {
    match e
    case BadRequest(_) => 400
    case Unauthorized(_) => 401
    case Forbidden(_) => 403
    case NotFound(_) => 404
    case ServerError(_) => 500
  }

  /** Administrators and lecturers, the roles allowed to read other
      people's purchase records. */
  predicate IsStaff(p: Principal) {
    p.role == Admin || p.role == Lecturer
  }
}
