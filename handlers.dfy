/** The exceptions that reach `GlobalExceptionHandler`, and the reply each handler builds. */
module Handlers {
  import opened Wrappers
  import opened Http

  /** Why a request body could not be read: a value in the wrong format, naming the first field of its path, or anything else. */
  datatype ReadCause = InvalidFormat(firstField: Option<string>) | OtherCause

  datatype AppError =
    | NotReadable(cause: ReadCause)      // HttpMessageNotReadableException
    | TypeMismatch(name: string)         // MethodArgumentTypeMismatchException
    | NotFound(message: string)          // EmployeeNotFoundException
    | ExportFailure(message: string)     // ExportException
    | Unexpected(message: string)        // any other exception

  const InvalidFormatPrefix: string := "Invalid format for parameter: "
  const DateFormatSuffix: string := ". Expected format is yyyy-MM-dd. Please provide a valid value."
  const InvalidRequestMessage: string := "Invalid request format. Please check your input and try again."
  const ValidValueSuffix: string := ". Please provide a valid value."
  const ExportErrorPrefix: string := "An error occurred during export: "
  const UnexpectedMessage: string := "An unexpected error occurred"

  /** Java's string concatenation of a possibly null `String`. */
  function JavaText(s: Option<string>): string {
    s.GetOr("null")
  }

  /** The handler Spring selects for the exception, and the reply it returns. */
  function Handle(e: AppError): (r: Reply)
    ensures r.body.Message?
    ensures r.status == BadRequest <==> e.NotReadable? || e.TypeMismatch?
    ensures r.status == NotFoundStatus <==> e.NotFound?
    ensures r.status == InternalServerError <==> e.ExportFailure? || e.Unexpected?
    ensures e.NotFound? ==> r.body.text == e.message
    ensures e.ExportFailure? ==> r.body.text == ExportErrorPrefix + e.message
    ensures e.Unexpected? ==> r.body.text == UnexpectedMessage
    ensures e.NotReadable? && e.cause.OtherCause? ==> r.body.text == InvalidRequestMessage
    ensures e.NotReadable? && e.cause.InvalidFormat? ==>
      r.body.text == InvalidFormatPrefix + JavaText(e.cause.firstField) + DateFormatSuffix
    ensures e.TypeMismatch? ==> r.body.text == InvalidFormatPrefix + e.name + ValidValueSuffix
  {
    match e
    case NotReadable(InvalidFormat(field)) =>
      Reply(BadRequest, Message(InvalidFormatPrefix + JavaText(field) + DateFormatSuffix))
    case NotReadable(OtherCause) =>
      Reply(BadRequest, Message(InvalidRequestMessage))
    case TypeMismatch(name) =>
      Reply(BadRequest, Message(InvalidFormatPrefix + name + ValidValueSuffix))
    case NotFound(message) =>
      Reply(NotFoundStatus, Message(message))
    case ExportFailure(message) =>
      Reply(InternalServerError, Message(ExportErrorPrefix + message))
    case Unexpected(_) =>
      Reply(InternalServerError, Message(UnexpectedMessage))
  }

  /** The reply names the field or parameter that was malformed, so different names give different replies. */
  lemma HandleNamesTheParameter(a: string, b: string)
    requires a != b
    ensures Handle(TypeMismatch(a)) != Handle(TypeMismatch(b))
    ensures Handle(NotReadable(InvalidFormat(Some(a)))) != Handle(NotReadable(InvalidFormat(Some(b))))
  {
    MiddleOf(InvalidFormatPrefix, a, ValidValueSuffix);
    MiddleOf(InvalidFormatPrefix, b, ValidValueSuffix);
    MiddleOf(InvalidFormatPrefix, a, DateFormatSuffix);
    MiddleOf(InvalidFormatPrefix, b, DateFormatSuffix);
  }

  lemma MiddleOf(p: string, x: string, q: string)
    ensures (p + x + q)[|p|..|p| + |x|] == x
  {
  }
}
