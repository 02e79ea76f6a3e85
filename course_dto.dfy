/** The request bodies the course service receives. */
module CourseDto {
  import opened Common

  /** A numeric request field as the parsed JSON body delivers it. */
  datatype NumberField = Absent | NullValue | EmptyString | Number(n: int)

  /** A field of a loosely typed request body: missing, null, or a value. */
  datatype Field<T> = Undefined | Null | Value(v: T)

  /** One module of a course creation request (ModuleDto); `contentType` is
      the raw string the client sent. */
  datatype ModuleDto = ModuleDto(
    title: string,
    contentType: string,
    order: int,
    url: Option<string>,
    filePath: Option<string>,
    originalName: Option<string>,
    duration: NumberField,
    pageCount: NumberField)

  /** The body of a module update (UpdateModuleDto); an empty `contentType`
      stands for a missing one. */
  datatype UpdateModuleDto = UpdateModuleDto(
    courseId: Id,
    contentId: Id,
    title: Option<string>,
    contentType: string,
    url: Option<string>,
    filePath: Option<string>,
    originalName: Option<string>,
    duration: Option<int>,
    pageCount: Option<int>)

  /** The body of a course update, taken as `any` by the service. */
  datatype UpdateCourseDto = UpdateCourseDto(id: Id, title: Field<string>, description: Field<string>, status: Field<string>)

  /** A file stored by the upload middleware before the service runs. */
  datatype UploadedFile = UploadedFile(filename: string, originalname: string)

  /** The integer Prisma stores for `field ?? default`; None when the value
      is the empty string, which is not nullish and not an integer. */
  function StoredNumber(field: NumberField, default: int): (r: Option<int>)
    ensures field == Absent || field == NullValue ==> r == Some(default)
    ensures field.Number? ==> r == Some(field.n)
    ensures r.None? <==> field == EmptyString
  {
    match field
    case Absent => Some(default)
    case NullValue => Some(default)
    case EmptyString => None
    case Number(n) => Some(n)
  }
}
