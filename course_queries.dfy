/** The read side of the course service: a course with its modules and their
    content, ordered by `order` with missing content keys removed, the
    ownership check, and the lookup of a module by one of its content rows. */
module CourseQueries {
  import opened Common
  import opened Tables
  import opened Entities
  import opened Store
  import opened Sorting

  /** A relation key of a fetched module: deleted from the object, present
      with null, or present with the related row. */
  datatype Slot<+T> = Absent | Null | Present(value: T)

  /** A module as `include: { videoContent, pdfContent, webLink }` returns it. */
  datatype ModuleView = ModuleView(
    id: Id,
    record: Module,
    videoContent: Slot<Row<VideoContent>>,
    pdfContent: Slot<Row<PdfContent>>,
    webLink: Slot<Row<Weblink>>)

  /** A course with its modules, as fetchCourseWithModules returns it. */
  datatype CourseView = CourseView(id: Id, course: Course, modules: seq<ModuleView>)

  /** The included side of a one-to-one relation: the related row, or null. */
  function Related<T(==,!new)>(t: Table<T>, owner: T -> Id, moduleId: Id): (r: Slot<Row<T>>)
    ensures r != Absent
    ensures r.Present? ==> r.value in t && owner(r.value.val) == moduleId
    ensures r == Null <==> forall row :: row in t ==> owner(row.val) != moduleId
  {
    var f := FindWhere(t, (v: T) => owner(v) == moduleId);
    if f.Some? then Present(f.value) else Null
  }

  function VideoOwner(v: VideoContent): Id { v.moduleId }
  function PdfOwner(p: PdfContent): Id { p.moduleId }
  function WeblinkOwner(w: Weblink): Id { w.moduleId }

  /** A module row with its three content relations included. */
  function ViewOf(c: Catalog, row: Row<Module>): (v: ModuleView)
    ensures v.id == row.id && v.record == row.val
  {
    ModuleView(row.id, row.val,
      Related(c.videos, VideoOwner, row.id),
      Related(c.pdfs, PdfOwner, row.id),
      Related(c.weblinks, WeblinkOwner, row.id))
  }

  /** Each key of a module object either holds a content row of that module
      or is missing exactly when the module has no such content. */
  ghost predicate ShowsContent(c: Catalog, v: ModuleView)
  {
    && v.videoContent != Null && v.pdfContent != Null && v.webLink != Null
    && (v.videoContent.Present? ==> v.videoContent.value in c.videos && v.videoContent.value.val.moduleId == v.id)
    && (v.pdfContent.Present? ==> v.pdfContent.value in c.pdfs && v.pdfContent.value.val.moduleId == v.id)
    && (v.webLink.Present? ==> v.webLink.value in c.weblinks && v.webLink.value.val.moduleId == v.id)
    && (v.videoContent == Absent <==> forall row :: row in c.videos ==> row.val.moduleId != v.id)
    && (v.pdfContent == Absent <==> forall row :: row in c.pdfs ==> row.val.moduleId != v.id)
    && (v.webLink == Absent <==> forall row :: row in c.weblinks ==> row.val.moduleId != v.id)
  }

  function OrderKey(v: ModuleView): int
  {
    v.record.order
  }

  function CourseModules(modules: Table<Module>, courseId: Id): Table<Module>
  {
    Select(modules, (m: Module) => m.courseId == courseId)
  }

  function Views(c: Catalog, rows: Table<Module>): (r: seq<ModuleView>)
    ensures |r| == |rows|
    ensures forall i :: 0 <= i < |rows| ==> r[i] == ViewOf(c, rows[i])
  {
    seq(|rows|, i requires 0 <= i < |rows| => ViewOf(c, rows[i]))
  }

  /** The course's modules, `orderBy: { order: 'asc' }`, each with its content. */
  function ModulesInOrder(c: Catalog, courseId: Id): (r: seq<ModuleView>)
    ensures SortedBy(r, OrderKey)
    ensures |r| == |CourseModules(c.modules, courseId)|
    ensures forall row :: row in c.modules && row.val.courseId == courseId ==> ViewOf(c, row) in r
    ensures forall v :: v in r ==>
      Row(v.id, v.record) in c.modules && v.record.courseId == courseId && v == ViewOf(c, Row(v.id, v.record))
  {
    var rows := CourseModules(c.modules, courseId);
    var views := Views(c, rows);
    var r := SortBy(views, OrderKey);
    SortedViewsMembers(c, rows, views, r);
    r
  }

  /** Sorting the views of some module rows keeps exactly those views. */
  lemma SortedViewsMembers(c: Catalog, rows: Table<Module>, views: seq<ModuleView>, r: seq<ModuleView>)
    requires views == Views(c, rows) && r == SortBy(views, OrderKey)
    ensures forall v :: v in r <==> v in views
    ensures forall row :: row in rows ==> ViewOf(c, row) in r
  {
    forall v ensures v in r <==> v in views {
      SortByMembers(views, OrderKey, v);
    }
    forall row | row in rows ensures ViewOf(c, row) in views {
      var i :| 0 <= i < |rows| && rows[i] == row;
      assert views[i] == ViewOf(c, row);
    }
  }

  /** removeNullContent on one module: every null key is deleted, every
      present key is kept. */
  function WithoutNulls(v: ModuleView): (r: ModuleView)
    ensures r.id == v.id && r.record == v.record
    ensures r.videoContent != Null && r.pdfContent != Null && r.webLink != Null
    ensures v.videoContent.Present? ==> r.videoContent == v.videoContent
    ensures v.pdfContent.Present? ==> r.pdfContent == v.pdfContent
    ensures v.webLink.Present? ==> r.webLink == v.webLink
    ensures v.videoContent == Null ==> r.videoContent == Absent
    ensures v.pdfContent == Null ==> r.pdfContent == Absent
    ensures v.webLink == Null ==> r.webLink == Absent
  {
    v.(videoContent := if v.videoContent == Null then Absent else v.videoContent,
       pdfContent := if v.pdfContent == Null then Absent else v.pdfContent,
       webLink := if v.webLink == Null then Absent else v.webLink)
  }

  /** Included content, once the null keys are deleted, shows exactly the
      module's content. */
  lemma CleanedViewShowsContent(c: Catalog, row: Row<Module>)
    ensures ShowsContent(c, WithoutNulls(ViewOf(c, row)))
  {
  }

  /** removeNullContent: deletes the null content keys of every module of a
      fetched course, in place, without removing or reordering modules. */
  method RemoveNullContent(modules: array<ModuleView>)
    modifies modules
    ensures forall i :: 0 <= i < modules.Length ==> modules[i] == WithoutNulls(old(modules[i]))
  {
    for i := 0 to modules.Length
      invariant forall k :: 0 <= k < i ==> modules[k] == WithoutNulls(old(modules[k]))
      invariant forall k :: i <= k < modules.Length ==> modules[k] == old(modules[k])
    {
      modules[i] := WithoutNulls(modules[i]);
    }
  }

  /** removeNullContent over a list of modules, position by position. */
  function Cleaned(views: seq<ModuleView>): (r: seq<ModuleView>)
    ensures |r| == |views|
    ensures forall i :: 0 <= i < |views| ==> r[i] == WithoutNulls(views[i])
  {
    seq(|views|, i requires 0 <= i < |views| => WithoutNulls(views[i]))
  }

  /** Deleting null keys keeps the order of the modules. */
  lemma CleanedSorted(views: seq<ModuleView>)
    requires SortedBy(views, OrderKey)
    ensures SortedBy(Cleaned(views), OrderKey)
  {
    var cleaned := Cleaned(views);
    forall i, j | 0 <= i < j < |cleaned| ensures OrderKey(cleaned[i]) <= OrderKey(cleaned[j]) {
      assert OrderKey(cleaned[i]) == OrderKey(views[i]);
      assert OrderKey(cleaned[j]) == OrderKey(views[j]);
    }
  }

  /** The modules of the course, ordered, with the null keys deleted. */
  function CourseModuleViews(c: Catalog, courseId: Id): (r: seq<ModuleView>)
    ensures SortedBy(r, OrderKey)
    ensures |r| == |CourseModules(c.modules, courseId)|
    ensures forall v :: v in r ==>
      Row(v.id, v.record) in c.modules && v.record.courseId == courseId && ShowsContent(c, v)
    ensures forall row :: row in c.modules && row.val.courseId == courseId ==>
      WithoutNulls(ViewOf(c, row)) in r
  {
    var views := ModulesInOrder(c, courseId);
    CleanedSorted(views);
    CleanedMembers(c, courseId, views);
    Cleaned(views)
  }

  /** The cleaned modules of a course are its module rows, each showing its
      own content. */
  lemma CleanedMembers(c: Catalog, courseId: Id, views: seq<ModuleView>)
    requires views == ModulesInOrder(c, courseId)
    ensures forall v :: v in Cleaned(views) ==>
      Row(v.id, v.record) in c.modules && v.record.courseId == courseId && ShowsContent(c, v)
    ensures forall row :: row in c.modules && row.val.courseId == courseId ==>
      WithoutNulls(ViewOf(c, row)) in Cleaned(views)
  {
    var cleaned := Cleaned(views);
    forall row | row in c.modules && row.val.courseId == courseId
      ensures WithoutNulls(ViewOf(c, row)) in cleaned
    {
      var i :| 0 <= i < |views| && views[i] == ViewOf(c, row);
      assert cleaned[i] == WithoutNulls(ViewOf(c, row));
    }
    forall v | v in cleaned
      ensures Row(v.id, v.record) in c.modules && v.record.courseId == courseId && ShowsContent(c, v)
    {
      var i :| 0 <= i < |cleaned| && cleaned[i] == v;
      assert views[i] in views;
      CleanedViewShowsContent(c, Row(views[i].id, views[i].record));
    }
  }

  /** What fetchCourseWithModules returns for a course id. */
  function FetchedCourse(c: Catalog, courseId: Id): (r: Result<CourseView>)
    ensures r.Err? <==> courseId !in Ids(c.courses)
    ensures r.Err? ==> r.error == NotFound("Course not found")
    ensures r.Ok? ==> r.value.id == courseId && Row(courseId, r.value.course) in c.courses
    ensures r.Ok? ==> r.value.modules == CourseModuleViews(c, courseId)
  {
    var course := Find(c.courses, courseId);
    if course.None? then Err(NotFound("Course not found"))
    else Ok(CourseView(courseId, course.value, CourseModuleViews(c, courseId)))
  }

  /** fetchCourseWithModules: the course row, then its ordered modules copied
      into an array whose null content keys removeNullContent deletes. */
  method FetchCourseWithModules(db: Database, courseId: Id) returns (r: Result<CourseView>)
    ensures r == FetchedCourse(db.Snapshot(), courseId)
  {
    var c := db.Snapshot();
    var course := Find(c.courses, courseId);
    if course.None? {
      return Err(NotFound("Course not found"));
    }
    var views := ModulesInOrder(c, courseId);
    var modules := CleanedCopy(views);
    r := Ok(CourseView(courseId, course.value, modules));
  }

  /** The fetched modules copied into an array whose null content keys
      removeNullContent then deletes. */
  method CleanedCopy(views: seq<ModuleView>) returns (r: seq<ModuleView>)
    ensures r == Cleaned(views)
  {
    var modules := new ModuleView[|views|](i requires 0 <= i < |views| => views[i]);
    RemoveNullContent(modules);
    r := modules[..];
  }

  /** checkIfCourseMatchTutorId: whether the stored course's tutorId is the
      given one; a missing course ends in a plain Error. */
  function CheckIfCourseMatchTutorId(courses: Table<Course>, courseId: Id, tutorId: Option<Id>): (r: Result<bool>)
    ensures r.Err? <==> courseId !in Ids(courses)
    ensures r.Err? ==> r.error == Failure("Unable to get the course")
    ensures r.Ok? ==> (r.value <==> tutorId == Some(Find(courses, courseId).value.tutorId))
  {
    var course := Find(courses, courseId);
    if course.None? then Err(Failure("Unable to get the course"))
    else Ok(tutorId == Some(course.value.tutorId))
  }

  /** Under the primary key constraint the check admits exactly the owner of
      the stored course. */
  lemma OwnershipCheck(courses: Table<Course>, courseId: Id, tutorId: Id)
    requires Keyed(courses)
    ensures CheckIfCourseMatchTutorId(courses, courseId, Some(tutorId)) == Ok(true) <==>
      exists course :: Row(courseId, course) in courses && course.tutorId == tutorId
  {
    var found := Find(courses, courseId);
    if found.Some? {
      forall course | Row(courseId, course) in courses ensures course == found.value {
        FindKeyed(courses, courseId, course);
      }
    }
  }

  /** The module's included content has this key, in any of the three slots. */
  predicate HoldsContent(v: ModuleView, contentId: Id)
  {
    || (v.videoContent.Present? && v.videoContent.value.id == contentId)
    || (v.pdfContent.Present? && v.pdfContent.value.id == contentId)
    || (v.webLink.Present? && v.webLink.value.id == contentId)
  }

  /** findModuleWithSpecificContent: the module with that key whose video, PDF
      or weblink content has key `contentId`, with its content included. */
  function FindModuleWithSpecificContent(c: Catalog, moduleId: Id, contentId: Id): (r: Option<ModuleView>)
    ensures r.Some? ==> r.value.id == moduleId && Row(moduleId, r.value.record) in c.modules
    ensures r.Some? ==> r.value == ViewOf(c, Row(moduleId, r.value.record)) && HoldsContent(r.value, contentId)
    ensures r.None? <==> forall row :: row in c.modules && row.id == moduleId ==> !HoldsContent(ViewOf(c, row), contentId)
  {
    var f := FindFirst(c.modules, (row: Row<Module>) => row.id == moduleId && HoldsContent(ViewOf(c, row), contentId));
    if f.Some? then Some(ViewOf(c, f.value)) else None
  }
}
