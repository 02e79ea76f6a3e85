/** Shared vocabulary of the e-learning backend model: identifiers, optional
    values, the exceptions the services end with, and the enumerations the
    database stores. */
module Common {

  /** Primary keys of every table (Prisma autoincrement integers). */
  type Id = nat

  datatype Option<+T> = None | Some(value: T)

  /** How a service call ends when it does not return normally. */
  datatype Error =
    | BadRequest(message: string)           // BadRequestException (400)
    | Unauthorized(message: string)         // UnauthorizedException (401)
    | Forbidden(message: string)            // ForbiddenException (403)
    | NotFound(message: string)             // NotFoundException (404)
    | Failure(message: string)              // a plain `new Error(message)`
    | Thrown(name: string, message: string) // a foreign error passed on unchanged

  datatype Result<+T> = Ok(value: T) | Err(error: Error)

  /** The `name` property of a thrown error. */
  function ErrorName(e: Error): string
  {
    match e
    case BadRequest(_) => "BadRequestException"
    case Unauthorized(_) => "UnauthorizedException"
    case Forbidden(_) => "ForbiddenException"
    case NotFound(_) => "NotFoundException"
    case Failure(_) => "Error"
    case Thrown(name, _) => name
  }

  /** Ok or an error, for calls whose normal result is `undefined`. */
  datatype Outcome = Done | Failed(error: Error)

  /** The error Prisma raises when a unique constraint is violated. */
  const UniqueViolation: Error := Thrown("PrismaClientKnownRequestError", "P2002")

  /** The error Prisma raises when the row to update or delete does not exist. */
  const RecordNotFound: Error := Thrown("PrismaClientKnownRequestError", "P2025")

  /** The error Prisma raises when a referenced row does not exist. */
  const ForeignKeyViolation: Error := Thrown("PrismaClientKnownRequestError", "P2003")

  /** The error Prisma raises when a value does not fit its column. */
  const InvalidValue: Error := Thrown("PrismaClientValidationError", "invalid value")

  datatype UserStatus = ACTIVE | INACTIVE | SUSPENDED

  datatype ContentType = VIDEO | PDF | WEBLINK

  /** JavaScript truthiness of an optional string: present and not empty. */
  predicate Truthy(s: Option<string>)
  {
    s.Some? && s.value != ""
  }

  /** The `??` operator on an optional number. */
  function OrElse(n: Option<int>, default: int): (r: int)
    ensures n.None? ==> r == default
    ensures n.Some? ==> r == n.value
  {
    if n.Some? then n.value else default
  }

  function ContentTypeName(c: ContentType): string
  {
    match c
    case VIDEO => "VIDEO"
    case PDF => "PDF"
    case WEBLINK => "WEBLINK"
  }

  /** The enum value a request string names, if any. */
  function ParseContentType(s: string): (r: Option<ContentType>)
    ensures r.Some? <==> s in {"VIDEO", "PDF", "WEBLINK"}
    ensures r.Some? ==> ContentTypeName(r.value) == s
  {
    if s == "VIDEO" then Some(VIDEO)
    else if s == "PDF" then Some(PDF)
    else if s == "WEBLINK" then Some(WEBLINK)
    else None
  }

  function DigitChar(d: nat): char
    requires d < 10
  {
    "0123456789"[d]
  }

  /** Decimal rendering of a number, as a template literal prints it. */
  function NatToString(n: nat): (s: string)
    ensures |s| >= 1
    ensures forall i :: 0 <= i < |s| ==> '0' <= s[i] <= '9'
    decreases n
  {
    if n < 10 then [DigitChar(n)] else NatToString(n / 10) + [DigitChar(n % 10)]
  }
}
