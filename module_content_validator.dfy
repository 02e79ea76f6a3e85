/** The custom constraint `isContentValid` on a module of a course creation
    request: the content fields must fit the declared content type. */
module ModuleContentValidator {
  import opened Common
  import opened CourseDto

  /** Missing, null and empty values become null; anything else is kept. */
  function ConvertEmptyToNull(v: NumberField): (r: NumberField)
    ensures r == NullValue <==> v == Absent || v == NullValue || v == EmptyString
    ensures r != NullValue ==> r == v
  {
    if v == Absent || v == NullValue || v == EmptyString then NullValue else v
  }

  /** `x === null || x > 0` after ConvertEmptyToNull. */
  predicate EmptyOrPositive(v: NumberField)
  {
    var c := ConvertEmptyToNull(v);
    c == NullValue || (c.Number? && c.n > 0)
  }

  /** IsModuleContentValid.validate: reads only the module object, never the
      validated property's own `value`. */
  function Validate<V>(value: V, m: ModuleDto): (r: bool)
    ensures r ==> ParseContentType(m.contentType).Some?
    ensures r && m.contentType != "PDF" ==> Truthy(m.url)
    ensures r && m.contentType == "PDF" ==> Truthy(m.filePath)
    ensures m.contentType == "VIDEO" ==> (r <==> Truthy(m.url) && (m.duration.Number? ==> m.duration.n > 0))
    ensures m.contentType == "PDF" ==> (r <==> Truthy(m.filePath) && (m.pageCount.Number? ==> m.pageCount.n > 0))
    ensures m.contentType == "WEBLINK" ==> (r <==> Truthy(m.url))
  {
    match m.contentType
    case "VIDEO" => Truthy(m.url) && EmptyOrPositive(m.duration)
    case "PDF" => Truthy(m.filePath) && EmptyOrPositive(m.pageCount)
    case "WEBLINK" => Truthy(m.url)
    case _ => false
  }

  /** The verdict is the same whatever value the decorated property holds. */
  lemma ValidateIgnoresValue<V>(a: V, b: V, m: ModuleDto)
    ensures Validate(a, m) == Validate(b, m)
  {
  }

  /** An explicit zero duration or page count is rejected, while a missing,
      null or empty one is accepted. */
  lemma ZeroIsNotEmpty<V>(value: V, m: ModuleDto)
    requires m.contentType == "VIDEO" && Truthy(m.url)
    ensures m.duration == Number(0) ==> !Validate(value, m)
    ensures m.duration in {Absent, NullValue, EmptyString} ==> Validate(value, m)
  {
  }
}
