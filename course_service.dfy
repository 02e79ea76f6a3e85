/** The state-changing operations of the course service over the database:
    module creation, the module update with its content, the course update
    and course deletion. */
module CourseService {
  import opened Common
  import opened Tables
  import opened Entities
  import opened Store
  import opened CourseDto
  import opened CourseQueries
  import opened CourseContent

  /** create on the content table of `x`, under a fresh key. */
  method InsertContent(db: Database, x: Content) returns (id: Id)
    requires db.Valid()
    modifies db`videos, db`pdfs, db`weblinks, db`nextId
    ensures db.Valid()
    ensures id == old(db.nextId) && db.nextId == id + 1
    ensures db.Snapshot() == WithContent(old(db.Snapshot()), id, x)
  {
    match x {
      case Video(v) => id := db.InsertVideo(v);
      case Pdf(p) => id := db.InsertPdf(p);
      case Link(w) => id := db.InsertWeblink(w);
    }
  }

  /** One turn of the createModuleAndContent loop. */
  method CreateModule(db: Database, courseId: Id, m: ModuleDto) returns (r: Outcome)
    requires db.Valid()
    modifies db`modules, db`videos, db`pdfs, db`weblinks, db`nextId
    ensures db.Valid()
    ensures var s := CreateOne(old(db.Snapshot()), old(db.nextId), courseId, m);
      db.Snapshot() == s.catalog && db.nextId == s.next && r == s.outcome
  {
    var t := ParseContentType(m.contentType);
    if t.None? || courseId !in Ids(db.courses) {
      return CreationFailure;
    }
    var moduleId := db.InsertModule(Module(courseId, m.title, m.order, t.value));
    var x := NewContent(m, t.value, moduleId);
    if x.None? {
      return CreationFailure;
    }
    var contentId := InsertContent(db, x.value);
    r := Done;
  }

  /** createModuleAndContent: for each spec in order, module.create and then
      the content create of its type; the first failure ends the loop with
      BadRequest and keeps what was written. */
  method CreateModuleAndContent(db: Database, courseId: Id, specs: seq<ModuleDto>) returns (r: Outcome)
    requires db.Valid()
    modifies db`modules, db`videos, db`pdfs, db`weblinks, db`nextId
    ensures db.Valid()
    ensures var s := CreateAll(old(db.Snapshot()), old(db.nextId), courseId, specs);
      db.Snapshot() == s.catalog && db.nextId == s.next && r == s.outcome
  {
    var i := 0;
    while i < |specs|
      invariant 0 <= i <= |specs|
      invariant db.Valid()
      invariant CreateAll(db.Snapshot(), db.nextId, courseId, specs[i..]) ==
        CreateAll(old(db.Snapshot()), old(db.nextId), courseId, specs)
    {
      assert specs[i..][0] == specs[i] && specs[i..][1..] == specs[i + 1..];
      r := CreateModule(db, courseId, specs[i]);
      if r.Failed? {
        return;
      }
      i := i + 1;
    }
    r := Done;
  }

  /** removeFile: the named upload leaves the disk; a missing or empty name
      changes nothing. */
  method RemoveFile(db: Database, name: Option<string>)
    modifies db`files
    ensures db.files == Removed(old(db.files), name)
  {
    if Truthy(name) {
      db.files := db.files - {name.value};
    }
  }

  /** deleteDependindOnContentType: delete by key in the table of the given
      content type. */
  method DeleteDependingOnContentType(db: Database, t: ContentType, contentId: Id)
    requires db.Valid()
    modifies db`videos, db`pdfs, db`weblinks
    ensures db.Valid()
    ensures db.Snapshot() == WithoutContent(old(db.Snapshot()), t, contentId)
  {
    match t {
      case VIDEO => db.DeleteVideo(contentId);
      case PDF => db.DeletePdf(contentId);
      case WEBLINK => db.DeleteWeblink(contentId);
    }
  }

  /** handleContentTypeChange: create the content of the new type for the
      module, remove the old PDF's file, delete the old content row; an
      unknown type ends in a BadRequest before any write. */
  method HandleContentTypeChange(db: Database, info: ModuleView, data: UpdateModuleDto)
    requires db.Valid()
    modifies db`videos, db`pdfs, db`weblinks, db`nextId, db`files
    ensures db.Valid()
    ensures db.Snapshot() == ContentTypeChanged(old(db.Snapshot()), old(db.nextId), info, data)
    ensures db.nextId == old(db.nextId) + (if ParseContentType(data.contentType).Some? then 1 else 0)
    ensures db.files == FilesAfterTypeChange(old(db.files), info, data)
  {
    var t := ParseContentType(data.contentType);
    if t.None? {
      return;
    }
    var contentId := InsertContent(db, ChangedContent(info.id, t.value, data));
    if info.record.contentType == PDF {
      RemoveFile(db, PdfPath(info));
    }
    DeleteDependingOnContentType(db, info.record.contentType, data.contentId);
  }

  /** updateExistingContent: rewrite the row `contentId` of the module's own
      content type from the request, or from the uploaded file for a PDF,
      whose previous file is removed. */
  method UpdateExistingContent(db: Database, info: ModuleView, data: UpdateModuleDto, file: Option<UploadedFile>)
    requires db.Valid()
    modifies db`videos, db`pdfs, db`weblinks, db`files
    ensures db.Valid()
    ensures db.Snapshot() == ExistingContentUpdated(old(db.Snapshot()), info, data, file)
    ensures info.record.contentType == PDF && file.Some? ==> db.files == Removed(old(db.files), PdfPath(info))
    ensures !(info.record.contentType == PDF && file.Some?) ==> db.files == old(db.files)
  {
    match info.record.contentType {
      case VIDEO =>
        if Truthy(data.url) {
          db.UpdateVideo(data.contentId, SetVideo(data.url, OrElse(data.duration, 0)));
        }
      case PDF =>
        if file.Some? {
          RemoveFile(db, PdfPath(info));
          db.UpdatePdf(data.contentId, SetPdf(file.value));
        }
      case WEBLINK =>
        if Truthy(data.url) {
          db.UpdateWeblink(data.contentId, SetWeblink(data.url));
        }
    }
  }

  const ModuleIdZero: Error := BadRequest("0 MODULE ID NOT  found")

  /** updateContent: module key 0 is refused; otherwise a type change or an
      update of the existing content, each run to completion with its own
      failures kept from the caller. */
  method UpdateContent(db: Database, info: ModuleView, data: UpdateModuleDto, file: Option<UploadedFile>) returns (r: Outcome)
    requires db.Valid()
    modifies db`videos, db`pdfs, db`weblinks, db`nextId, db`files
    ensures db.Valid()
    ensures r == (if info.id == 0 then Failed(ModuleIdZero) else Done)
    ensures db.Snapshot() == ContentUpdated(old(db.Snapshot()), old(db.nextId), info, data, file)
    ensures db.files == FilesAfterContentUpdate(old(db.files), info, data, file)
    ensures db.nextId == old(db.nextId) +
      (if info.id != 0 && TypeChangeRequested(data, info.record) && ParseContentType(data.contentType).Some? then 1 else 0)
  {
    if info.id == 0 {
      return Failed(ModuleIdZero);
    }
    if TypeChangeRequested(data, info.record) {
      HandleContentTypeChange(db, info, data);
    } else {
      UpdateExistingContent(db, info, data, file);
    }
    r := Done;
  }

  /** The checks updateModule makes before writing: the awaited ownership
      check, then the module holding content `contentId`. The module's own
      course is not compared with `data.courseId`. */
  function ModuleToUpdate(c: Catalog, data: UpdateModuleDto, moduleId: Id, tutorId: Id): (r: Result<ModuleView>)
    ensures data.courseId !in Ids(c.courses) ==> r == Err(Failure("Unable to get the course"))
    ensures data.courseId in Ids(c.courses) && Find(c.courses, data.courseId).value.tutorId != tutorId ==>
      r == Err(Unauthorized("You are not authorized to perform this action"))
    ensures CheckIfCourseMatchTutorId(c.courses, data.courseId, Some(tutorId)) == Ok(true) ==>
      (r.Err? <==> FindModuleWithSpecificContent(c, moduleId, data.contentId).None?)
    ensures r.Err? && CheckIfCourseMatchTutorId(c.courses, data.courseId, Some(tutorId)) == Ok(true) ==>
      r.error == NotFound("Module not found")
    ensures r.Ok? ==> r.value.id == moduleId && Row(moduleId, r.value.record) in c.modules
    ensures r.Ok? ==> r.value == ViewOf(c, Row(moduleId, r.value.record)) && HoldsContent(r.value, data.contentId)
  {
    var check := CheckIfCourseMatchTutorId(c.courses, data.courseId, Some(tutorId));
    if check.Err? then Err(check.error)
    else if !check.value then Err(Unauthorized("You are not authorized to perform this action"))
    else
      var info := FindModuleWithSpecificContent(c, moduleId, data.contentId);
      if info.None? then Err(NotFound("Module not found")) else Ok(info.value)
  }

  /** The same checks with the module also required to belong to the course
      whose ownership was checked. */
  function ModuleToUpdateInCourse(c: Catalog, data: UpdateModuleDto, moduleId: Id, tutorId: Id): (r: Result<ModuleView>)
    ensures r.Ok? ==> r.value.record.courseId == data.courseId
    ensures r.Ok? ==> Row(moduleId, r.value.record) in c.modules && HoldsContent(r.value, data.contentId)
    ensures r.Ok? ==> Find(c.courses, r.value.record.courseId) != None
    ensures r.Ok? ==> Find(c.courses, r.value.record.courseId).value.tutorId == tutorId
  {
    var gate := ModuleToUpdate(c, data, moduleId, tutorId);
    if gate.Ok? && gate.value.record.courseId != data.courseId then Err(NotFound("Module not found"))
    else gate
  }

  /** A tutor who owns course 1 passes the checks for a module of course 2,
      owned by another tutor, by naming course 1 in the request. */
  lemma ForeignModulePassesChecks()
    ensures var c := Catalog(
        [Row(1, Course("Algebra", None, "ACTIVE", 7)), Row(2, Course("Biology", None, "ACTIVE", 8))],
        [Row(3, Module(2, "Cells", 1, VIDEO))],
        [Row(4, VideoContent(3, Some("https://example.org/cells"), 60))], [], []);
      var data := UpdateModuleDto(1, 4, Some("Mine now"), "", None, None, None, None, None);
      && ModuleToUpdate(c, data, 3, 7).Ok?
      && ModuleToUpdate(c, data, 3, 7).value.record.courseId == 2
      && ModuleToUpdateInCourse(c, data, 3, 7) == Err(NotFound("Module not found"))
  {
    var c := Catalog(
        [Row(1, Course("Algebra", None, "ACTIVE", 7)), Row(2, Course("Biology", None, "ACTIVE", 8))],
        [Row(3, Module(2, "Cells", 1, VIDEO))],
        [Row(4, VideoContent(3, Some("https://example.org/cells"), 60))], [], []);
    var data := UpdateModuleDto(1, 4, Some("Mine now"), "", None, None, None, None, None);
    var row := Row(3, Module(2, "Cells", 1, VIDEO));
    assert Find(c.courses, 1) == Some(Course("Algebra", None, "ACTIVE", 7));
    var v := ViewOf(c, row);
    assert FindWhere(c.videos, (x: VideoContent) => VideoOwner(x) == 3) == Some(c.videos[0]);
    assert v.videoContent == Present(Row(4, VideoContent(3, Some("https://example.org/cells"), 60)));
    assert HoldsContent(v, 4);
    assert FindModuleWithSpecificContent(c, 3, 4).Some?;
  }

  /** module.update with the keys that differ; no call when none does. */
  method WriteModuleChanges(db: Database, moduleId: Id, m: Module, data: UpdateModuleDto) returns (r: Outcome)
    requires db.Valid()
    modifies db`modules
    ensures db.Valid()
    ensures var u := ModuleUpdateFor(data, m);
      if NoModuleChange(u) then r == Done && db.modules == old(db.modules)
      else match ApplyModuleUpdate(m, u)
        case Err(e) => r == Failed(e) && db.modules == old(db.modules)
        case Ok(after) => r == Done && db.modules == Replace(old(db.modules), moduleId, after)
  {
    var u := ModuleUpdateFor(data, m);
    if NoModuleChange(u) {
      return Done;
    }
    var applied := ApplyModuleUpdate(m, u);
    if applied.Err? {
      return Failed(applied.error);
    }
    db.ReplaceModule(moduleId, applied.value);
    r := Done;
  }

  /** A content type outside the enum makes module.update fail, and the
      content change before it wrote nothing. */
  lemma InvalidTypeWritesNothing(c: Catalog, next: Id, files: set<string>, info: ModuleView, data: UpdateModuleDto, file: Option<UploadedFile>)
    requires info.id != 0
    requires ApplyModuleUpdate(info.record, ModuleUpdateFor(data, info.record)).Err?
    ensures ContentUpdated(c, next, info, data, file) == c
    ensures FilesAfterContentUpdate(files, info, data, file) == files
  {
  }

  /** The writes of updateModule once the checks passed: the content change,
      the module fields that differ, then the course fetched again. */
  method ApplyModuleRequest(db: Database, info: ModuleView, data: UpdateModuleDto, moduleId: Id, file: Option<UploadedFile>)
    returns (r: Result<CourseView>)
    requires db.Valid() && info.id != 0
    modifies db`modules, db`videos, db`pdfs, db`weblinks, db`nextId, db`files
    ensures db.Valid()
    ensures var u := ModuleUpdateFor(data, info.record);
      var content := ContentUpdated(old(db.Snapshot()), old(db.nextId), info, data, file);
      db.files == FilesAfterContentUpdate(old(db.files), info, data, file) &&
      if NoModuleChange(u) then db.Snapshot() == content && r == FetchedCourse(content, data.courseId)
      else match ApplyModuleUpdate(info.record, u)
        case Err(e) => r == Err(e) && db.Snapshot() == old(db.Snapshot())
        case Ok(after) =>
          db.Snapshot() == content.(modules := Replace(content.modules, moduleId, after))
          && r == FetchedCourse(db.Snapshot(), data.courseId)
  {
    ghost var content := ContentUpdated(db.Snapshot(), db.nextId, info, data, file);
    if ApplyModuleUpdate(info.record, ModuleUpdateFor(data, info.record)).Err? {
      InvalidTypeWritesNothing(db.Snapshot(), db.nextId, db.files, info, data, file);
    }
    var updated := UpdateContent(db, info, data, file);
    var written := WriteModuleChanges(db, moduleId, info.record, data);
    assert db.Snapshot() == content.(modules := db.modules);
    if written.Failed? {
      return Err(written.error);
    }
    r := FetchCourseWithModules(db, data.courseId);
  }

  /** updateModule: inside the transaction, the checks, the content change
      (detached, run to completion), the module fields that differ, and the
      course fetched again. Errors leave the transaction unmapped. */
  method UpdateModule(db: Database, data: UpdateModuleDto, moduleId: Id, tutorId: Id, file: Option<UploadedFile>)
    returns (r: Result<CourseView>)
    requires db.Valid()
    modifies db`modules, db`videos, db`pdfs, db`weblinks, db`nextId, db`files
    ensures db.Valid()
    ensures var gate := ModuleToUpdate(old(db.Snapshot()), data, moduleId, tutorId);
      gate.Err? ==> r == Err(gate.error) && db.Snapshot() == old(db.Snapshot()) && db.files == old(db.files)
    ensures var gate := ModuleToUpdate(old(db.Snapshot()), data, moduleId, tutorId);
      gate.Ok? && gate.value.id == 0 ==>
        r == Err(ModuleIdZero) && db.Snapshot() == old(db.Snapshot()) && db.files == old(db.files)
    ensures var gate := ModuleToUpdate(old(db.Snapshot()), data, moduleId, tutorId);
      gate.Ok? && gate.value.id != 0 ==>
        var info := gate.value;
        var u := ModuleUpdateFor(data, info.record);
        var content := ContentUpdated(old(db.Snapshot()), old(db.nextId), info, data, file);
        db.files == FilesAfterContentUpdate(old(db.files), info, data, file) &&
        if NoModuleChange(u) then db.Snapshot() == content && r == FetchedCourse(content, data.courseId)
        else match ApplyModuleUpdate(info.record, u)
          case Err(e) => r == Err(e) && db.Snapshot() == old(db.Snapshot())
          case Ok(after) =>
            db.Snapshot() == content.(modules := Replace(content.modules, moduleId, after))
            && r == FetchedCourse(db.Snapshot(), data.courseId)
  {
    var gate := ModuleToUpdate(db.Snapshot(), data, moduleId, tutorId);
    if gate.Err? {
      return Err(gate.error);
    }
    if gate.value.id == 0 {
      // updateContent's refusal of module key 0, before any write
      return Err(ModuleIdZero);
    }
    r := ApplyModuleRequest(db, gate.value, data, moduleId, file);
  }

  /** updateCourse: the ownership check is not awaited and never denies; the
      fields that `!==` the stored ones are written, and any failure of the
      write is swallowed into an empty result. */
  method UpdateCourse(db: Database, dto: UpdateCourseDto, tutorId: Id) returns (r: Result<Option<CourseView>>)
    requires db.Valid()
    modifies db`courses
    ensures db.Valid()
    ensures dto.id !in Ids(old(db.courses)) ==> r == Err(NotFound("Course not found")) && db.courses == old(db.courses)
    ensures dto.id in Ids(old(db.courses)) ==>
      var current := Find(old(db.courses), dto.id).value;
      var u := CourseUpdateFor(dto, current);
      if NoCourseKeys(u) then db.courses == old(db.courses) && r == Ok(Some(FetchedCourse(db.Snapshot(), dto.id).value))
      else match ApplyCourseUpdate(current, u)
        case Err(_) => db.courses == old(db.courses) && r == Ok(None)
        case Ok(after) =>
          db.courses == Replace(old(db.courses), dto.id, after)
          && r == Ok(Some(FetchedCourse(db.Snapshot(), dto.id).value))
  {
    var current := Find(db.courses, dto.id);
    if current.None? {
      return Err(NotFound("Course not found"));
    }
    var u := CourseUpdateFor(dto, current.value);
    if !NoCourseKeys(u) {
      var applied := ApplyCourseUpdate(current.value, u);
      if applied.Err? {
        return Ok(None);
      }
      ReplaceRows(db.courses, dto.id, applied.value);
      db.ReplaceCourse(dto.id, applied.value);
    }
    var fetched := FetchCourseWithModules(db, dto.id);
    r := Ok(Some(fetched.value));
  }

  /** deleteCourse as written: the course goes whoever asks; a missing course
      ends in BadRequest. */
  method DeleteCourse(db: Database, courseId: Id, userId: Option<Id>, isAdmin: bool) returns (r: Outcome)
    requires db.Valid()
    modifies db`courses
    ensures db.Valid()
    ensures var d := CourseDeletion(old(db.courses), courseId, userId, isAdmin);
      && (d.Err? ==> r == Failed(d.error) && db.courses == old(db.courses))
      && (d.Ok? ==> r == Done && db.courses == d.value)
  {
    if courseId !in Ids(db.courses) {
      return Failed(DeleteCourseFailure);
    }
    db.DeleteCourse(courseId);
    r := Done;
  }
}
