/** The writes of the course service, as functions from one catalog to the
    next: module creation with its content, a change of content type, an
    update of the existing content, the field-by-field module and course
    updates, and course deletion. */
module CourseContent {
  import opened Common
  import opened Tables
  import opened Entities
  import opened Store
  import opened CourseDto
  import opened ModuleContentValidator
  import opened CourseQueries

  /** A content row of one of the three content tables. */
  datatype Content = Video(video: VideoContent) | Pdf(pdf: PdfContent) | Link(link: Weblink)

  function TypeOf(x: Content): ContentType
  {
    match x
    case Video(_) => VIDEO
    case Pdf(_) => PDF
    case Link(_) => WEBLINK
  }

  function ModuleOf(x: Content): Id
  {
    match x
    case Video(v) => v.moduleId
    case Pdf(p) => p.moduleId
    case Link(w) => w.moduleId
  }

  /** The keys of the rows of `t` that belong to module `k`. */
  ghost function Owned<T>(t: Table<T>, owner: T -> Id, k: Id): set<Id>
  {
    set r | r in t && owner(r.val) == k :: r.id
  }

  ghost function Tagged(ty: ContentType, ids: set<Id>): set<(ContentType, Id)>
  {
    set id | id in ids :: (ty, id)
  }

  /** The content rows that belong to a module, by table and key. */
  ghost function ContentOf(c: Catalog, moduleId: Id): set<(ContentType, Id)>
  {
    Tagged(VIDEO, Owned(c.videos, VideoOwner, moduleId))
    + Tagged(PDF, Owned(c.pdfs, PdfOwner, moduleId))
    + Tagged(WEBLINK, Owned(c.weblinks, WeblinkOwner, moduleId))
  }

  lemma OwnedAppend<T>(t: Table<T>, id: Id, v: T, owner: T -> Id, k: Id)
    ensures Owned(t + [Row(id, v)], owner, k) == Owned(t, owner, k) + (if owner(v) == k then {id} else {})
  {
    assert forall r :: r in t + [Row(id, v)] <==> r in t || r == Row(id, v);
    if owner(v) == k {
      assert Row(id, v) in t + [Row(id, v)];
    }
  }

  lemma OwnedDelete<T(!new)>(t: Table<T>, id: Id, owner: T -> Id, k: Id)
    ensures Owned(Delete(t, id), owner, k) == Owned(t, owner, k) - {id}
  {
    forall x | x in Owned(t, owner, k) - {id} ensures x in Owned(Delete(t, id), owner, k) {
      var r :| r in t && owner(r.val) == k && r.id == x;
      assert r in Delete(t, id);
    }
  }

  lemma OwnedUpdateRow<T(!new)>(t: Table<T>, id: Id, change: T -> T, owner: T -> Id, k: Id)
    requires Keyed(t)
    requires forall v :: owner(change(v)) == owner(v)
    ensures Owned(UpdateRow(t, id, change), owner, k) == Owned(t, owner, k)
  {
    var found := Find(t, id);
    if found.Some? {
      var w := change(found.value);
      ReplaceRows(t, id, w);
      var after := Replace(t, id, w);
      forall x | x in Owned(t, owner, k) ensures x in Owned(after, owner, k) {
        var r :| r in t && owner(r.val) == k && r.id == x;
        if r.id == id {
          FindKeyed(t, id, r.val);
          assert Row(id, w) in after;
        } else {
          assert r in after;
        }
      }
      forall x | x in Owned(after, owner, k) ensures x in Owned(t, owner, k) {
        var r :| r in after && owner(r.val) == k && r.id == x;
        if r.id == id {
          assert Row(id, found.value) in t;
        }
      }
    }
  }

  lemma TaggedUnion(ty: ContentType, a: set<Id>, b: set<Id>)
    ensures Tagged(ty, a + b) == Tagged(ty, a) + Tagged(ty, b)
  {
  }

  lemma TaggedMinus(ty: ContentType, a: set<Id>, id: Id)
    ensures Tagged(ty, a - {id}) == Tagged(ty, a) - {(ty, id)}
  {
  }

  /** create on the content table of `x`. */
  function WithContent(c: Catalog, id: Id, x: Content): (r: Catalog)
    ensures r.courses == c.courses && r.modules == c.modules
  {
    match x
    case Video(v) => c.(videos := c.videos + [Row(id, v)])
    case Pdf(p) => c.(pdfs := c.pdfs + [Row(id, p)])
    case Link(w) => c.(weblinks := c.weblinks + [Row(id, w)])
  }

  /** delete by key on the content table of type `t`. */
  function WithoutContent(c: Catalog, t: ContentType, id: Id): (r: Catalog)
    ensures r.courses == c.courses && r.modules == c.modules
  {
    match t
    case VIDEO => c.(videos := Delete(c.videos, id))
    case PDF => c.(pdfs := Delete(c.pdfs, id))
    case WEBLINK => c.(weblinks := Delete(c.weblinks, id))
  }

  /** A create gives the owning module one more content row and no other
      module anything. */
  lemma ContentOfWith(c: Catalog, id: Id, x: Content, k: Id)
    ensures ContentOf(WithContent(c, id, x), k) ==
      ContentOf(c, k) + (if ModuleOf(x) == k then {(TypeOf(x), id)} else {})
  {
    var extra: set<Id> := if ModuleOf(x) == k then {id} else {};
    match x
    case Video(v) =>
      OwnedAppend(c.videos, id, v, VideoOwner, k);
      TaggedUnion(VIDEO, Owned(c.videos, VideoOwner, k), extra);
    case Pdf(p) =>
      OwnedAppend(c.pdfs, id, p, PdfOwner, k);
      TaggedUnion(PDF, Owned(c.pdfs, PdfOwner, k), extra);
    case Link(w) =>
      OwnedAppend(c.weblinks, id, w, WeblinkOwner, k);
      TaggedUnion(WEBLINK, Owned(c.weblinks, WeblinkOwner, k), extra);
  }

  /** A delete by key takes exactly that row of that table from whichever
      module held it. */
  lemma ContentOfWithout(c: Catalog, t: ContentType, id: Id, k: Id)
    ensures ContentOf(WithoutContent(c, t, id), k) == ContentOf(c, k) - {(t, id)}
  {
    match t
    case VIDEO =>
      OwnedDelete(c.videos, id, VideoOwner, k);
      TaggedMinus(VIDEO, Owned(c.videos, VideoOwner, k), id);
    case PDF =>
      OwnedDelete(c.pdfs, id, PdfOwner, k);
      TaggedMinus(PDF, Owned(c.pdfs, PdfOwner, k), id);
    case WEBLINK =>
      OwnedDelete(c.weblinks, id, WeblinkOwner, k);
      TaggedMinus(WEBLINK, Owned(c.weblinks, WeblinkOwner, k), id);
  }

  // ---------------------------------------------------------------------
  // createModuleAndContent
  // ---------------------------------------------------------------------

  /** The state a run of createModuleAndContent leaves: the tables, the next
      key and how the run ended. */
  datatype Creation = Creation(catalog: Catalog, next: Id, outcome: Outcome)

  const CreationFailure: Outcome := Failed(BadRequest("Error during creating module and content"))

  /** The content row a module spec asks for; None when `duration ?? 0` or
      `pageCount ?? 0` is an empty string, which the integer column refuses. */
  function NewContent(m: ModuleDto, t: ContentType, moduleId: Id): (r: Option<Content>)
    ensures r.Some? ==> TypeOf(r.value) == t && ModuleOf(r.value) == moduleId
    ensures r.None? <==> (t == VIDEO && m.duration == EmptyString) || (t == PDF && m.pageCount == EmptyString)
    ensures t == VIDEO && (m.duration == NumberField.Absent || m.duration == NullValue) ==>
      r == Some(Video(VideoContent(moduleId, m.url, 0)))
    ensures t == PDF && (m.pageCount == NumberField.Absent || m.pageCount == NullValue) ==>
      r == Some(Pdf(PdfContent(moduleId, m.filePath, m.originalName, 0)))
    ensures t == WEBLINK ==> r == Some(Link(Weblink(moduleId, m.url)))
  {
    match t
    case VIDEO =>
      var d := StoredNumber(m.duration, 0);
      if d.None? then None else Some(Video(VideoContent(moduleId, m.url, d.value)))
    case PDF =>
      var n := StoredNumber(m.pageCount, 0);
      if n.None? then None else Some(Pdf(PdfContent(moduleId, m.filePath, m.originalName, n.value)))
    case WEBLINK => Some(Link(Weblink(moduleId, m.url)))
  }

  /** One turn of the loop: module.create, then the content create of its
      type; an unknown content type or course writes nothing. */
  function CreateOne(c: Catalog, next: Id, courseId: Id, m: ModuleDto): Creation
  {
    var t := ParseContentType(m.contentType);
    if t.None? || courseId !in Ids(c.courses) then Creation(c, next, CreationFailure)
    else
      var c1 := c.(modules := c.modules + [Row(next, Module(courseId, m.title, m.order, t.value))]);
      var x := NewContent(m, t.value, next);
      if x.None? then Creation(c1, next + 1, CreationFailure)
      else Creation(WithContent(c1, next + 1, x.value), next + 2, Done)
  }

  /** The whole loop, in input order, stopping at the first failure. */
  function CreateAll(c: Catalog, next: Id, courseId: Id, specs: seq<ModuleDto>): (r: Creation)
    ensures r.catalog.courses == c.courses
    ensures c.modules <= r.catalog.modules
    ensures next <= r.next
    decreases |specs|
  {
    if |specs| == 0 then Creation(c, next, Done)
    else
      var s := CreateOne(c, next, courseId, specs[0]);
      if s.outcome.Failed? then s else CreateAll(s.catalog, s.next, courseId, specs[1..])
  }

  /** No content row refers to a module key from `next` on. */
  ghost predicate NoContentFrom(c: Catalog, next: Id)
  {
    forall k :: next <= k ==> ContentOf(c, k) == {}
  }

  /** A spec that passes isContentValid and whose numeric fields are not
      empty strings. */
  ghost predicate Creatable(m: ModuleDto)
  {
    Validate(m.title, m) && m.duration != EmptyString && m.pageCount != EmptyString
  }

  /** One valid spec creates its module and exactly one content row, of the
      declared type, keyed right after the module. */
  lemma CreateOneValid(c: Catalog, next: Id, courseId: Id, m: ModuleDto)
    requires courseId in Ids(c.courses) && Creatable(m)
    ensures var s := CreateOne(c, next, courseId, m);
      var t := ParseContentType(m.contentType).value;
      && s.outcome == Done && s.next == next + 2
      && s.catalog.modules == c.modules + [Row(next, Module(courseId, m.title, m.order, t))]
      && ContentOf(s.catalog, next) == ContentOf(c, next) + {(t, next + 1)}
      && forall k :: k != next ==> ContentOf(s.catalog, k) == ContentOf(c, k)
  {
    var t := ParseContentType(m.contentType).value;
    var c1 := c.(modules := c.modules + [Row(next, Module(courseId, m.title, m.order, t))]);
    var x := NewContent(m, t, next).value;
    assert ContentOf(c1, next) == ContentOf(c, next);
    forall k ensures ContentOf(WithContent(c1, next + 1, x), k) ==
      ContentOf(c, k) + (if k == next then {(t, next + 1)} else {})
    {
      assert ContentOf(c1, k) == ContentOf(c, k);
      ContentOfWith(c1, next + 1, x, k);
    }
  }

  /** Later turns of the loop leave the content of earlier modules alone. */
  lemma {:induction false} CreateAllKeepsEarlier(c: Catalog, next: Id, courseId: Id, specs: seq<ModuleDto>, k: Id)
    requires k < next
    ensures ContentOf(CreateAll(c, next, courseId, specs).catalog, k) == ContentOf(c, k)
    decreases |specs|
  {
    if |specs| > 0 {
      var m := specs[0];
      var s := CreateOne(c, next, courseId, m);
      var t := ParseContentType(m.contentType);
      if t.Some? && courseId in Ids(c.courses) {
        var c1 := c.(modules := c.modules + [Row(next, Module(courseId, m.title, m.order, t.value))]);
        assert ContentOf(c1, k) == ContentOf(c, k);
        var x := NewContent(m, t.value, next);
        if x.Some? {
          ContentOfWith(c1, next + 1, x.value, k);
        }
      }
      if s.outcome.Done? {
        CreateAllKeepsEarlier(s.catalog, s.next, courseId, specs[1..], k);
      }
    }
  }

  /** The module row of spec `m` under key `id`, and exactly one content row,
      of its type, under the next key. */
  ghost predicate CreatedAt(cat: Catalog, id: Id, courseId: Id, m: ModuleDto)
  {
    var t := ParseContentType(m.contentType);
    && t.Some?
    && Row(id, Module(courseId, m.title, m.order, t.value)) in cat.modules
    && ContentOf(cat, id) == {(t.value, id + 1)}
  }

  /** The first turn of a run on valid specs leaves no content at keys from
      `next + 2` on. */
  lemma CreateOneFresh(c: Catalog, next: Id, courseId: Id, m: ModuleDto)
    requires courseId in Ids(c.courses) && Creatable(m) && NoContentFrom(c, next)
    ensures NoContentFrom(CreateOne(c, next, courseId, m).catalog, next + 2)
  {
    CreateOneValid(c, next, courseId, m);
    forall k | next + 2 <= k ensures ContentOf(CreateOne(c, next, courseId, m).catalog, k) == {} {
      assert ContentOf(c, k) == {};
    }
  }

  /** On valid specs for an existing course the run ends normally, two keys
      used per spec. */
  lemma {:induction false} CreateAllRuns(c: Catalog, next: Id, courseId: Id, specs: seq<ModuleDto>)
    requires courseId in Ids(c.courses)
    requires forall i :: 0 <= i < |specs| ==> Creatable(specs[i])
    requires NoContentFrom(c, next)
    ensures CreateAll(c, next, courseId, specs).outcome == Done
    ensures CreateAll(c, next, courseId, specs).next == next + 2 * |specs|
    decreases |specs|
  {
    if |specs| > 0 {
      var s1 := CreateOne(c, next, courseId, specs[0]);
      CreateOneValid(c, next, courseId, specs[0]);
      CreateOneFresh(c, next, courseId, specs[0]);
      var rest := specs[1..];
      assert forall i :: 0 <= i < |rest| ==> rest[i] == specs[i + 1];
      CreateAllRuns(s1.catalog, next + 2, courseId, rest);
    }
  }

  /** A valid spec for an existing course ends its turn normally, two keys
      used, the courses untouched. */
  lemma CreateOneDone(c: Catalog, next: Id, courseId: Id, m: ModuleDto)
    requires courseId in Ids(c.courses) && Creatable(m)
    ensures var s := CreateOne(c, next, courseId, m);
      s.outcome == Done && s.next == next + 2 && s.catalog.courses == c.courses
  {
    var t := ParseContentType(m.contentType).value;
    assert NewContent(m, t, next).Some?;
  }

  /** A run whose first turn succeeds goes on with the rest from that turn's state. */
  lemma CreateAllStep(c: Catalog, next: Id, courseId: Id, specs: seq<ModuleDto>)
    requires |specs| > 0 && CreateOne(c, next, courseId, specs[0]).outcome == Done
    ensures var s := CreateOne(c, next, courseId, specs[0]);
      CreateAll(c, next, courseId, specs) == CreateAll(s.catalog, s.next, courseId, specs[1..])
  {
  }

  /** On valid specs for an existing course, the first spec gets its module
      under key `next` and exactly one content row of its type. */
  lemma CreateAllCreatesFirst(c: Catalog, next: Id, courseId: Id, specs: seq<ModuleDto>)
    requires courseId in Ids(c.courses)
    requires |specs| > 0 && Creatable(specs[0])
    requires NoContentFrom(c, next)
    ensures CreatedAt(CreateAll(c, next, courseId, specs).catalog, next, courseId, specs[0])
  {
    var m := specs[0];
    var s1 := CreateOne(c, next, courseId, m);
    CreateOneValid(c, next, courseId, m);
    var s := CreateAll(s1.catalog, next + 2, courseId, specs[1..]);
    assert CreateAll(c, next, courseId, specs) == s;
    assert ContentOf(c, next) == {};
    CreateAllKeepsEarlier(s1.catalog, next + 2, courseId, specs[1..], next);
    var t := ParseContentType(m.contentType).value;
    assert s.catalog.modules[|c.modules|] == Row(next, Module(courseId, m.title, m.order, t));
  }

  /** On valid specs for an existing course, spec `i` (here `m`) gets its
      module under key `next + 2 * i` (here `id`) and exactly one content row
      of its type. */
  lemma {:induction false} CreateAllCreates(c: Catalog, next: Id, courseId: Id, specs: seq<ModuleDto>, i: nat, id: Id, m: ModuleDto)
    requires courseId in Ids(c.courses)
    requires forall i :: 0 <= i < |specs| ==> Creatable(specs[i])
    requires NoContentFrom(c, next)
    requires i < |specs| && m == specs[i] && id == next + 2 * i
    ensures CreatedAt(CreateAll(c, next, courseId, specs).catalog, id, courseId, m)
    decreases |specs|
  {
    if i == 0 {
      CreateAllCreatesFirst(c, next, courseId, specs);
    } else {
      var s1 := CreateOne(c, next, courseId, specs[0]);
      CreateOneDone(c, next, courseId, specs[0]);
      CreateOneFresh(c, next, courseId, specs[0]);
      var rest := specs[1..];
      assert forall j :: 0 <= j < |rest| ==> rest[j] == specs[j + 1];
      CreateAllStep(c, next, courseId, specs);
      CreateAllCreates(s1.catalog, next + 2, courseId, rest, i - 1, id, m);
    }
  }

  /** createModuleAndContent on valid specs for an existing course: every
      spec, in input order, gets a module row and exactly one content row of
      its type, and the run ends normally. */
  lemma CreateAllValid(c: Catalog, next: Id, courseId: Id, specs: seq<ModuleDto>)
    requires courseId in Ids(c.courses)
    requires forall i :: 0 <= i < |specs| ==> Creatable(specs[i])
    requires NoContentFrom(c, next)
    ensures CreateAll(c, next, courseId, specs).outcome == Done
    ensures CreateAll(c, next, courseId, specs).next == next + 2 * |specs|
    ensures forall i :: 0 <= i < |specs| ==> CreatedAt(CreateAll(c, next, courseId, specs).catalog, next + 2 * i, courseId, specs[i])
  {
    CreateAllRuns(c, next, courseId, specs);
    forall i | 0 <= i < |specs|
      ensures CreatedAt(CreateAll(c, next, courseId, specs).catalog, next + 2 * i, courseId, specs[i])
    {
      CreateAllCreates(c, next, courseId, specs, i, next + 2 * i, specs[i]);
    }
  }

  /** A VIDEO spec with an empty-string duration passes isContentValid, yet
      its content create fails and ends the run. */
  lemma EmptyDurationPassesValidationButFails(c: Catalog, next: Id, courseId: Id, m: ModuleDto)
    requires courseId in Ids(c.courses)
    requires m.contentType == "VIDEO" && Truthy(m.url) && m.duration == EmptyString
    ensures Validate(m.title, m)
    ensures CreateOne(c, next, courseId, m).outcome == CreationFailure
  {
  }

  // ---------------------------------------------------------------------
  // updateContent: handleContentTypeChange and updateExistingContent
  // ---------------------------------------------------------------------

  /** updateContent takes the content-type-change branch: a type is given and
      it is not the module's current one. */
  predicate TypeChangeRequested(data: UpdateModuleDto, m: Module)
  {
    data.contentType != "" && data.contentType != ContentTypeName(m.contentType)
  }

  /** The content row handleContentTypeChange creates for the new type. */
  function ChangedContent(moduleId: Id, t: ContentType, data: UpdateModuleDto): (r: Content)
    ensures TypeOf(r) == t && ModuleOf(r) == moduleId
    ensures r.Video? ==> r.video.url == data.url && r.video.duration == OrElse(data.duration, 0)
    ensures r.Pdf? ==>
      r.pdf.filePath == data.filePath && r.pdf.originalName == data.originalName && r.pdf.pageCount == OrElse(data.pageCount, 0)
    ensures r.Link? ==> r.link.url == data.url
  {
    match t
    case VIDEO => Video(VideoContent(moduleId, data.url, OrElse(data.duration, 0)))
    case PDF => Pdf(PdfContent(moduleId, data.filePath, data.originalName, OrElse(data.pageCount, 0)))
    case WEBLINK => Link(Weblink(moduleId, data.url))
  }

  /** The stored path of a module's PDF, if its PDF content was included. */
  function PdfPath(info: ModuleView): Option<string>
  {
    if info.pdfContent.Present? then info.pdfContent.value.val.filePath else None
  }

  /** removeFile: a missing or empty name, or a file already gone, changes
      nothing. */
  ghost function Removed(files: set<string>, name: Option<string>): set<string>
  {
    if Truthy(name) then files - {name.value} else files
  }

  /** handleContentTypeChange, run to completion: create the content of the
      new type under a fresh key, then delete `contentId` from the old type's
      table; an unknown type writes nothing. */
  function ContentTypeChanged(c: Catalog, next: Id, info: ModuleView, data: UpdateModuleDto): (r: Catalog)
    ensures ParseContentType(data.contentType).None? ==> r == c
    ensures r.courses == c.courses && r.modules == c.modules
  {
    var t := ParseContentType(data.contentType);
    if t.None? then c
    else WithoutContent(WithContent(c, next, ChangedContent(info.id, t.value, data)), info.record.contentType, data.contentId)
  }

  /** The uploads after handleContentTypeChange: the old PDF's file goes. */
  ghost function FilesAfterTypeChange(files: set<string>, info: ModuleView, data: UpdateModuleDto): set<string>
  {
    if ParseContentType(data.contentType).Some? && info.record.contentType == PDF then Removed(files, PdfPath(info))
    else files
  }

  /** A change to another valid type leaves the module exactly one content
      row, of the new type, and takes the old row from whichever module held
      it. */
  lemma TypeChangeKeepsOneContent(c: Catalog, next: Id, info: ModuleView, data: UpdateModuleDto, t: ContentType)
    requires ParseContentType(data.contentType) == Some(t) && t != info.record.contentType
    requires ContentOf(c, info.id) == {(info.record.contentType, data.contentId)}
    ensures ContentOf(ContentTypeChanged(c, next, info, data), info.id) == {(t, next)}
    ensures forall k :: k != info.id ==>
      ContentOf(ContentTypeChanged(c, next, info, data), k) == ContentOf(c, k) - {(info.record.contentType, data.contentId)}
  {
    var x := ChangedContent(info.id, t, data);
    var c1 := WithContent(c, next, x);
    forall k ensures ContentOf(ContentTypeChanged(c, next, info, data), k) ==
      ContentOf(c, k) + (if k == info.id then {(t, next)} else {}) - {(info.record.contentType, data.contentId)}
    {
      ContentOfWith(c, next, x, k);
      ContentOfWithout(c1, info.record.contentType, data.contentId, k);
    }
  }

  function SetVideo(url: Option<string>, duration: int): VideoContent -> VideoContent
  {
    (v: VideoContent) => v.(url := url, duration := duration)
  }

  function SetPdf(file: UploadedFile): PdfContent -> PdfContent
  {
    (p: PdfContent) => p.(filePath := Some(file.filename), originalName := Some(file.originalname))
  }

  function SetWeblink(url: Option<string>): Weblink -> Weblink
  {
    (w: Weblink) => w.(url := url)
  }

  /** updateExistingContent, run to completion: a VIDEO or WEBLINK module's
      row `contentId` takes a given url, a PDF module's row takes an uploaded
      file; without a url or a file nothing changes. */
  function ExistingContentUpdated(c: Catalog, info: ModuleView, data: UpdateModuleDto, file: Option<UploadedFile>): (r: Catalog)
    ensures r.courses == c.courses && r.modules == c.modules
    ensures info.record.contentType != PDF && !Truthy(data.url) ==> r == c
    ensures info.record.contentType == PDF && file.None? ==> r == c
  {
    match info.record.contentType
    case VIDEO =>
      if Truthy(data.url) then c.(videos := UpdateRow(c.videos, data.contentId, SetVideo(data.url, OrElse(data.duration, 0)))) else c
    case PDF =>
      if file.Some? then c.(pdfs := UpdateRow(c.pdfs, data.contentId, SetPdf(file.value))) else c
    case WEBLINK =>
      if Truthy(data.url) then c.(weblinks := UpdateRow(c.weblinks, data.contentId, SetWeblink(data.url))) else c
  }

  /** The uploads after updateExistingContent: a new PDF file replaces the
      old one. */
  ghost function FilesAfterExistingUpdate(files: set<string>, info: ModuleView, file: Option<UploadedFile>): set<string>
  {
    if info.record.contentType == PDF && file.Some? then Removed(files, PdfPath(info)) else files
  }

  /** An update of the existing content keeps every module's content rows:
      only fields of the row `contentId` change. */
  lemma ExistingUpdateKeepsContent(c: Catalog, info: ModuleView, data: UpdateModuleDto, file: Option<UploadedFile>, k: Id)
    requires Keyed(c.videos) && Keyed(c.pdfs) && Keyed(c.weblinks)
    ensures ContentOf(ExistingContentUpdated(c, info, data, file), k) == ContentOf(c, k)
  {
    var id := data.contentId;
    match info.record.contentType
    case VIDEO =>
      OwnedUpdateRow(c.videos, id, SetVideo(data.url, OrElse(data.duration, 0)), VideoOwner, k);
    case PDF =>
      if file.Some? {
        OwnedUpdateRow(c.pdfs, id, SetPdf(file.value), PdfOwner, k);
      }
    case WEBLINK =>
      OwnedUpdateRow(c.weblinks, id, SetWeblink(data.url), WeblinkOwner, k);
  }

  /** The content change updateContent starts: none for module key 0,
      otherwise a type change or an update of the existing row. */
  function ContentUpdated(c: Catalog, next: Id, info: ModuleView, data: UpdateModuleDto, file: Option<UploadedFile>): Catalog
  {
    if info.id == 0 then c
    else if TypeChangeRequested(data, info.record) then ContentTypeChanged(c, next, info, data)
    else ExistingContentUpdated(c, info, data, file)
  }

  /** The uploads after updateContent. */
  ghost function FilesAfterContentUpdate(files: set<string>, info: ModuleView, data: UpdateModuleDto, file: Option<UploadedFile>): set<string>
  {
    if info.id == 0 then files
    else if TypeChangeRequested(data, info.record) then FilesAfterTypeChange(files, info, data)
    else FilesAfterExistingUpdate(files, info, file)
  }

  // ---------------------------------------------------------------------
  // The field-by-field module and course updates
  // ---------------------------------------------------------------------

  /** The `updateModuleData` object: the keys that are set. */
  datatype ModuleUpdate = ModuleUpdate(title: Option<string>, contentType: Option<string>)

  predicate NoModuleChange(u: ModuleUpdate)
  {
    u.title.None? && u.contentType.None?
  }

  /** updateModule writes a title or a content type only when one is given
      and differs from the stored one. */
  function ModuleUpdateFor(data: UpdateModuleDto, m: Module): (u: ModuleUpdate)
    ensures u.title.Some? <==> Truthy(data.title) && data.title.value != m.title
    ensures u.title.Some? ==> u.title == data.title
    ensures u.contentType.Some? <==> TypeChangeRequested(data, m)
    ensures u.contentType.Some? ==> u.contentType.value == data.contentType
  {
    ModuleUpdate(
      if Truthy(data.title) && data.title.value != m.title then data.title else None,
      if TypeChangeRequested(data, m) then Some(data.contentType) else None)
  }

  /** module.update with the given keys; a content type outside the enum is
      refused by Prisma. */
  function ApplyModuleUpdate(m: Module, u: ModuleUpdate): (r: Result<Module>)
    ensures r.Err? <==> u.contentType.Some? && ParseContentType(u.contentType.value).None?
    ensures r.Err? ==> r.error == InvalidValue
    ensures r.Ok? ==> r.value.courseId == m.courseId && r.value.order == m.order
    ensures r.Ok? ==> r.value.title == (if u.title.Some? then u.title.value else m.title)
    ensures r.Ok? ==>
      ContentTypeName(r.value.contentType) == (if u.contentType.Some? then u.contentType.value else ContentTypeName(m.contentType))
  {
    var title := if u.title.Some? then u.title.value else m.title;
    if u.contentType.None? then Ok(m.(title := title))
    else
      var t := ParseContentType(u.contentType.value);
      if t.None? then Err(InvalidValue) else Ok(m.(title := title, contentType := t.value))
  }

  /** Once the update is written, the same request finds nothing to write. */
  lemma ModuleUpdateSettles(data: UpdateModuleDto, m: Module)
    requires ApplyModuleUpdate(m, ModuleUpdateFor(data, m)).Ok?
    ensures NoModuleChange(ModuleUpdateFor(data, ApplyModuleUpdate(m, ModuleUpdateFor(data, m)).value))
  {
    var u := ModuleUpdateFor(data, m);
    var after := ApplyModuleUpdate(m, u).value;
    if u.contentType.Some? {
      var t := ParseContentType(u.contentType.value).value;
      assert ContentTypeName(after.contentType) == data.contentType;
    }
  }

  /** The `upateData` object of updateCourse: a key is set, possibly to
      undefined or null, when the request's field `!==` the stored one. */
  datatype CourseUpdate = CourseUpdate(title: Option<Field<string>>, status: Option<Field<string>>, description: Option<Field<string>>)

  predicate NoCourseKeys(u: CourseUpdate)
  {
    u.title.None? && u.status.None? && u.description.None?
  }

  /** `field !== stored` for a stored string or null: undefined differs from
      both. */
  predicate Differs(field: Field<string>, stored: Option<string>)
  {
    match field
    case Undefined => true
    case Null => stored.Some?
    case Value(v) => stored != Some(v)
  }

  function CourseUpdateFor(dto: UpdateCourseDto, course: Course): (u: CourseUpdate)
    ensures u.title.Some? <==> Differs(dto.title, Some(course.title))
    ensures u.status.Some? <==> Differs(dto.status, Some(course.status))
    ensures u.description.Some? <==> Differs(dto.description, course.description)
    ensures u.title.Some? ==> u.title.value == dto.title
    ensures u.status.Some? ==> u.status.value == dto.status
    ensures u.description.Some? ==> u.description.value == dto.description
  {
    CourseUpdate(
      if Differs(dto.title, Some(course.title)) then Some(dto.title) else None,
      if Differs(dto.status, Some(course.status)) then Some(dto.status) else None,
      if Differs(dto.description, course.description) then Some(dto.description) else None)
  }

  /** A course status Prisma accepts. */
  predicate CourseStatus(s: string)
  {
    s == "ACTIVE" || s == "INACTIVE"
  }

  /** The optional description after an update: a value sets it, null
      clears it, a missing or undefined key keeps it. */
  function DescriptionAfter(stored: Option<string>, key: Option<Field<string>>): Option<string>
  {
    match key
    case Some(Value(v)) => Some(v)
    case Some(Null) => None
    case _ => stored
  }

  /** course.update with the given keys: an undefined value leaves the column
      alone, null clears the optional description and is refused for the
      required title and status, as is a status outside the enum. */
  function ApplyCourseUpdate(course: Course, u: CourseUpdate): (r: Result<Course>)
    ensures r.Err? <==>
      || u.title == Some(Field.Null)
      || u.status == Some(Field.Null)
      || (u.status.Some? && u.status.value.Value? && !CourseStatus(u.status.value.v))
    ensures r.Err? ==> r.error == InvalidValue
    ensures r.Ok? ==> r.value.tutorId == course.tutorId
    ensures r.Ok? ==> r.value.title == (if u.title.Some? && u.title.value.Value? then u.title.value.v else course.title)
    ensures r.Ok? ==> r.value.status == (if u.status.Some? && u.status.value.Value? then u.status.value.v else course.status)
    ensures r.Ok? ==> r.value.description == DescriptionAfter(course.description, u.description)
  {
    if u.title == Some(Field.Null) || u.status == Some(Field.Null) then Err(InvalidValue)
    else if u.status.Some? && u.status.value.Value? && !CourseStatus(u.status.value.v) then Err(InvalidValue)
    else
      var title := if u.title.Some? && u.title.value.Value? then u.title.value.v else course.title;
      var status := if u.status.Some? && u.status.value.Value? then u.status.value.v else course.status;
      var description := DescriptionAfter(course.description, u.description);
      Ok(Course(title, description, status, course.tutorId))
  }

  /** Sending the same course update again changes nothing more. */
  lemma CourseUpdateSettles(dto: UpdateCourseDto, course: Course)
    requires ApplyCourseUpdate(course, CourseUpdateFor(dto, course)).Ok?
    ensures var after := ApplyCourseUpdate(course, CourseUpdateFor(dto, course)).value;
      ApplyCourseUpdate(after, CourseUpdateFor(dto, after)) == Ok(after)
  {
  }

  /** A request whose fields all equal the stored ones sets no key, so no
      update is issued. */
  lemma SameCourseNoUpdate(course: Course)
    ensures NoCourseKeys(CourseUpdateFor(UpdateCourseDto(0, Value(course.title), if course.description.Some? then Value(course.description.value) else Field.Null, Value(course.status)), course))
  {
  }

  // ---------------------------------------------------------------------
  // deleteCourse
  // ---------------------------------------------------------------------

  const DeleteCourseFailure: Error := BadRequest("Unable to delete your course")
  const DeleteCourseForbidden: Error := Forbidden("You are not allowed to perform this action")

  /** deleteCourse as written: the ownership check is not awaited, so the
      pending promise is truthy and the course is deleted whoever asks. */
  function CourseDeletion(courses: Table<Course>, courseId: Id, userId: Option<Id>, isAdmin: bool): (r: Result<Table<Course>>)
    ensures r.Err? <==> courseId !in Ids(courses)
    ensures r.Err? ==> r.error == DeleteCourseFailure
    ensures r.Ok? ==> Ids(r.value) == Ids(courses) - {courseId}
    ensures r.Ok? ==> forall row :: row in r.value <==> row in courses && row.id != courseId
  {
    if courseId in Ids(courses) then Ok(Delete(courses, courseId)) else Err(DeleteCourseFailure)
  }

  /** deleteCourse with the check awaited: only an admin or the course's
      tutor may delete; a failing check ends in BadRequest. */
  function CourseDeletionChecked(courses: Table<Course>, courseId: Id, userId: Option<Id>, isAdmin: bool): (r: Result<Table<Course>>)
    ensures r.Ok? <==> courseId in Ids(courses) && (isAdmin || userId == Some(Find(courses, courseId).value.tutorId))
    ensures r.Ok? ==> forall row :: row in r.value <==> row in courses && row.id != courseId
    ensures courseId !in Ids(courses) ==> r == Err(DeleteCourseFailure)
    ensures courseId in Ids(courses) && r.Err? ==> r.error == DeleteCourseForbidden
  {
    if !isAdmin && CheckIfCourseMatchTutorId(courses, courseId, userId).Err? then Err(DeleteCourseFailure)
    else if !isAdmin && !CheckIfCourseMatchTutorId(courses, courseId, userId).value then Err(DeleteCourseForbidden)
    else CourseDeletion(courses, courseId, userId, isAdmin)
  }

  /** As written, who asks makes no difference. */
  lemma DeletionIgnoresCaller(courses: Table<Course>, courseId: Id, userId: Option<Id>, isAdmin: bool)
    ensures CourseDeletion(courses, courseId, userId, isAdmin) == CourseDeletion(courses, courseId, None, true)
  {
  }

  /** A tutor deletes another tutor's course: the as-written deletion goes
      through where the checked one is forbidden. */
  lemma NonOwnerDeletesCourse()
    ensures var courses := [Row(1, Course("Algebra", None, "ACTIVE", 7))];
      && CourseDeletion(courses, 1, Some(8), false) == Ok([])
      && CourseDeletionChecked(courses, 1, Some(8), false) == Err(DeleteCourseForbidden)
  {
    var courses := [Row(1, Course("Algebra", None, "ACTIVE", 7))];
    assert 1 in Ids(courses);
    assert Delete(courses, 1) == [];
  }

  /** Under the key constraint, the checked deletion admits an admin or the
      stored owner, and no one else. */
  lemma CheckedDeletionOwnerOrAdmin(courses: Table<Course>, courseId: Id, userId: Id, isAdmin: bool)
    requires Keyed(courses)
    ensures CourseDeletionChecked(courses, courseId, Some(userId), isAdmin).Ok? <==>
      exists course :: Row(courseId, course) in courses && (isAdmin || course.tutorId == userId)
  {
    if courseId in Ids(courses) {
      var found := Find(courses, courseId).value;
      forall course | Row(courseId, course) in courses ensures course == found {
        FindKeyed(courses, courseId, course);
      }
    }
  }
}
