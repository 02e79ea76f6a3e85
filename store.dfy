/** The database the services talk to through Prisma: one table per model,
    a shared autoincrement counter, and the upload directory. */
module Store {
  import opened Common
  import opened Tables
  import opened Entities

  /** No two different users share an email (the schema's unique index). */
  ghost predicate EmailsUnique(users: Table<User>)
  {
    forall a, b :: a in users && b in users && a.val.email == b.val.email ==> a == b
  }

  /** Whether some user holds this email. */
  predicate EmailTaken(users: Table<User>, email: string)
  {
    exists r :: r in users && r.val.email == email
  }

  /** The tables the course service works on, as one value. */
  datatype Catalog = Catalog(
    courses: Table<Course>,
    modules: Table<Module>,
    videos: Table<VideoContent>,
    pdfs: Table<PdfContent>,
    weblinks: Table<Weblink>)

  /** Keys unique and below the counter in every table of a catalog. */
  ghost predicate CatalogKeyed(c: Catalog, next: Id)
  {
    && WellKeyed(c.courses, next)
    && WellKeyed(c.modules, next)
    && WellKeyed(c.videos, next)
    && WellKeyed(c.pdfs, next)
    && WellKeyed(c.weblinks, next)
  }

  /** Some user other than `id` holds this email. */
  predicate EmailTakenByOther(users: Table<User>, email: string, id: Id)
  {
    exists r :: r in users && r.val.email == email && r.id != id
  }

  /** Rewriting one user keeps emails unique when no other user holds its new email. */
  lemma EmailsUniqueAfterReplace(users: Table<User>, id: Id, u: User)
    requires EmailsUnique(users) && !EmailTakenByOther(users, u.email, id)
    ensures EmailsUnique(Replace(users, id, u))
  {
    ReplaceRows(users, id, u);
  }

  class Database {
    var users: Table<User>
    var courses: Table<Course>
    var modules: Table<Module>
    var videos: Table<VideoContent>
    var pdfs: Table<PdfContent>
    var weblinks: Table<Weblink>
    var collaborations: Table<Collaboration>
    var enrollments: Table<Enrollment>
    /** The next key the autoincrement counter hands out. */
    var nextId: Id
    /** Names of the uploaded files present on disk. */
    ghost var files: set<string>

    /** Keys are unique and below the counter in every table; emails are unique. */
    ghost predicate Valid()
      reads this`users, this`courses, this`modules, this`videos, this`pdfs, this`weblinks
      reads this`collaborations, this`enrollments, this`nextId
    {
      && WellKeyed(users, nextId)
      && WellKeyed(courses, nextId)
      && WellKeyed(modules, nextId)
      && WellKeyed(videos, nextId)
      && WellKeyed(pdfs, nextId)
      && WellKeyed(weblinks, nextId)
      && WellKeyed(collaborations, nextId)
      && WellKeyed(enrollments, nextId)
      && EmailsUnique(users)
    }

    function Snapshot(): Catalog
      reads this`courses, this`modules, this`videos, this`pdfs, this`weblinks
    {
      Catalog(courses, modules, videos, pdfs, weblinks)
    }

    constructor ()
      ensures Valid() && nextId == 1 && files == {}
      ensures users == [] && courses == [] && modules == [] && videos == []
      ensures pdfs == [] && weblinks == [] && collaborations == [] && enrollments == []
    {
      users, courses, modules, videos := [], [], [], [];
      pdfs, weblinks, collaborations, enrollments := [], [], [], [];
      nextId := 1;
      files := {};
    }

    /** The autoincrement counter: a key no row holds yet. */
    method NewId() returns (id: Id)
      requires Valid()
      modifies this`nextId
      ensures Valid() && id == old(nextId) && nextId == id + 1
      ensures id !in Ids(users) && id !in Ids(courses) && id !in Ids(modules)
      ensures id !in Ids(videos) && id !in Ids(pdfs) && id !in Ids(weblinks)
      ensures id !in Ids(collaborations) && id !in Ids(enrollments)
    {
      FreshKey(users, nextId);
      FreshKey(courses, nextId);
      FreshKey(modules, nextId);
      FreshKey(videos, nextId);
      FreshKey(pdfs, nextId);
      FreshKey(weblinks, nextId);
      FreshKey(collaborations, nextId);
      FreshKey(enrollments, nextId);
      id := nextId;
      nextId := nextId + 1;
    }

    /** prisma.user.create: fails with the unique-constraint error when the
        email is taken, otherwise stores the user under a fresh key. */
    method CreateUser(u: User) returns (r: Result<Id>)
      requires Valid()
      modifies this`users, this`nextId
      ensures Valid()
      ensures old(EmailTaken(users, u.email)) ==> r == Err(UniqueViolation) && unchanged(this)
      ensures !old(EmailTaken(users, u.email)) ==>
        r == Ok(old(nextId)) && users == old(users) + [Row(old(nextId), u)] && nextId == old(nextId) + 1
    {
      if EmailTaken(users, u.email) {
        return Err(UniqueViolation);
      }
      var id := NewId();
      AppendFresh(users, id, u);
      users := users + [Row(id, u)];
      r := Ok(id);
    }

    /** An insert into the modules table whose references exist: the row is stored under a fresh key. */
    method InsertModule(v: Module) returns (id: Id)
      requires Valid()
      modifies this`modules, this`nextId
      ensures Valid() && id == old(nextId) && nextId == id + 1
      ensures modules == old(modules) + [Row(id, v)]
    {
      id := NewId();
      AppendFresh(modules, id, v);
      modules := modules + [Row(id, v)];
    }

    /** An insert into the videos table whose references exist: the row is stored under a fresh key. */
    method InsertVideo(v: VideoContent) returns (id: Id)
      requires Valid()
      modifies this`videos, this`nextId
      ensures Valid() && id == old(nextId) && nextId == id + 1
      ensures videos == old(videos) + [Row(id, v)]
    {
      id := NewId();
      AppendFresh(videos, id, v);
      videos := videos + [Row(id, v)];
    }

    /** An insert into the pdfs table whose references exist: the row is stored under a fresh key. */
    method InsertPdf(v: PdfContent) returns (id: Id)
      requires Valid()
      modifies this`pdfs, this`nextId
      ensures Valid() && id == old(nextId) && nextId == id + 1
      ensures pdfs == old(pdfs) + [Row(id, v)]
    {
      id := NewId();
      AppendFresh(pdfs, id, v);
      pdfs := pdfs + [Row(id, v)];
    }

    /** An insert into the weblinks table whose references exist: the row is stored under a fresh key. */
    method InsertWeblink(v: Weblink) returns (id: Id)
      requires Valid()
      modifies this`weblinks, this`nextId
      ensures Valid() && id == old(nextId) && nextId == id + 1
      ensures weblinks == old(weblinks) + [Row(id, v)]
    {
      id := NewId();
      AppendFresh(weblinks, id, v);
      weblinks := weblinks + [Row(id, v)];
    }

    /** An insert into the collaborations table whose references exist: the row is stored under a fresh key. */
    method InsertCollaboration(v: Collaboration) returns (id: Id)
      requires Valid()
      modifies this`collaborations, this`nextId
      ensures Valid() && id == old(nextId) && nextId == id + 1
      ensures collaborations == old(collaborations) + [Row(id, v)]
    {
      id := NewId();
      AppendFresh(collaborations, id, v);
      collaborations := collaborations + [Row(id, v)];
    }

    /** An insert into the enrollments table whose references exist: the row is stored under a fresh key. */
    method InsertEnrollment(v: Enrollment) returns (id: Id)
      requires Valid()
      modifies this`enrollments, this`nextId
      ensures Valid() && id == old(nextId) && nextId == id + 1
      ensures enrollments == old(enrollments) + [Row(id, v)]
    {
      id := NewId();
      AppendFresh(enrollments, id, v);
      enrollments := enrollments + [Row(id, v)];
    }

    /** prisma.videoContent.update by key, computed from the stored row. */
    method UpdateVideo(id: Id, change: VideoContent -> VideoContent)
      requires Valid()
      modifies this`videos
      ensures Valid() && videos == UpdateRow(old(videos), id, change)
    {
      UpdateRowWellKeyed(videos, id, change, nextId);
      videos := UpdateRow(videos, id, change);
    }

    /** prisma.pDFContent.update by key, computed from the stored row. */
    method UpdatePdf(id: Id, change: PdfContent -> PdfContent)
      requires Valid()
      modifies this`pdfs
      ensures Valid() && pdfs == UpdateRow(old(pdfs), id, change)
    {
      UpdateRowWellKeyed(pdfs, id, change, nextId);
      pdfs := UpdateRow(pdfs, id, change);
    }

    /** prisma.weblink.update by key, computed from the stored row. */
    method UpdateWeblink(id: Id, change: Weblink -> Weblink)
      requires Valid()
      modifies this`weblinks
      ensures Valid() && weblinks == UpdateRow(old(weblinks), id, change)
    {
      UpdateRowWellKeyed(weblinks, id, change, nextId);
      weblinks := UpdateRow(weblinks, id, change);
    }

    method DeleteVideo(id: Id)
      requires Valid()
      modifies this`videos
      ensures Valid() && videos == Delete(old(videos), id)
    {
      DeleteWellKeyed(videos, id, nextId);
      videos := Delete(videos, id);
    }

    method DeletePdf(id: Id)
      requires Valid()
      modifies this`pdfs
      ensures Valid() && pdfs == Delete(old(pdfs), id)
    {
      DeleteWellKeyed(pdfs, id, nextId);
      pdfs := Delete(pdfs, id);
    }

    method DeleteWeblink(id: Id)
      requires Valid()
      modifies this`weblinks
      ensures Valid() && weblinks == Delete(old(weblinks), id)
    {
      DeleteWellKeyed(weblinks, id, nextId);
      weblinks := Delete(weblinks, id);
    }

    method DeleteCourse(id: Id)
      requires Valid()
      modifies this`courses
      ensures Valid() && courses == Delete(old(courses), id)
    {
      DeleteWellKeyed(courses, id, nextId);
      courses := Delete(courses, id);
    }

    /** prisma.module.update by key. */
    method ReplaceModule(id: Id, m: Module)
      requires Valid()
      modifies this`modules
      ensures Valid() && modules == Replace(old(modules), id, m)
    {
      ReplaceWellKeyed(modules, id, m, nextId);
      modules := Replace(modules, id, m);
    }

    /** prisma.course.update by key. */
    method ReplaceCourse(id: Id, c: Course)
      requires Valid()
      modifies this`courses
      ensures Valid() && courses == Replace(old(courses), id, c)
    {
      ReplaceWellKeyed(courses, id, c, nextId);
      courses := Replace(courses, id, c);
    }

    /** prisma.user.update by key: the user is rewritten in place. */
    method ReplaceUser(id: Id, u: User)
      requires Valid() && !EmailTakenByOther(users, u.email, id)
      modifies this`users
      ensures Valid() && users == Replace(old(users), id, u)
    {
      EmailsUniqueAfterReplace(users, id, u);
      ReplaceWellKeyed(users, id, u, nextId);
      users := Replace(users, id, u);
    }
  
    /** The rollback of a transaction on the user table: an earlier content
        of the table comes back, the counter does not. */
    method RollbackUsers(before: Table<User>)
      requires Valid() && WellKeyed(before, nextId) && EmailsUnique(before)
      modifies this`users
      ensures Valid() && users == before
    {
      users := before;
    }
  }
}
