/** The enrollment service: which learners follow which course of a tutor. */
module EnrollmentService {
  import opened Common
  import opened Tables
  import opened Entities
  import opened Store

  /** One listed learner of an enrollment request. */
  datatype LearnerEntry = LearnerEntry(learnerId: Id, name: string, email: string)

  /** EnrollmentDto: a course and the learners to enroll in it. */
  datatype EnrollmentDto = EnrollmentDto(courseId: Id, learners: seq<LearnerEntry>)

  /** The tutor fields getLearnerCourseBaseOnEnrollment selects. */
  datatype TutorName = TutorName(name: string, lastName: string)

  /** One entry of getLearnerCourseBaseOnEnrollment: a course with its
      modules and the name of its tutor. */
  datatype EnrolledCourse = EnrolledCourse(courseId: Id, course: Course, modules: Table<Module>, tutor: TutorName)

  /** addEnrollment as written. The ownership check is not awaited, so the
      Promise it returns is truthy and nobody is refused; the callback of
      `learners.map` builds each create query without returning it, and a
      Prisma query runs only once it is awaited, so no enrollment is ever
      written and the call ends normally. */
  method AddEnrollment(db: Database, data: EnrollmentDto, tutorId: Id) returns (r: Outcome)
    ensures r == Done
    ensures unchanged(db)
  {
    r := Done;
  }

  /** The rows one create per listed learner stores, keyed from `next` on. */
  function EnrollmentRows(next: Id, learners: seq<LearnerEntry>, tutorId: Id, courseId: Id): (r: Table<Enrollment>)
    ensures |r| == |learners|
    ensures forall i :: 0 <= i < |r| ==> r[i] == Row(next + i, Enrollment(learners[i].learnerId, tutorId, courseId))
  {
    seq(|learners|, i requires 0 <= i < |learners| => Row(next + i, Enrollment(learners[i].learnerId, tutorId, courseId)))
  }

  /** One more learner adds one more row, keyed after the others. */
  lemma EnrollmentRowsGrow(next: Id, learners: seq<LearnerEntry>, i: nat, tutorId: Id, courseId: Id)
    requires i < |learners|
    ensures EnrollmentRows(next, learners[..i + 1], tutorId, courseId) ==
      EnrollmentRows(next, learners[..i], tutorId, courseId) + [Row(next + i, Enrollment(learners[i].learnerId, tutorId, courseId))]
  {
    var a := EnrollmentRows(next, learners[..i + 1], tutorId, courseId);
    var b := EnrollmentRows(next, learners[..i], tutorId, courseId) + [Row(next + i, Enrollment(learners[i].learnerId, tutorId, courseId))];
    assert |a| == |b|;
    forall k | 0 <= k < |a| ensures a[k] == b[k] {
    }
  }

  /** Every listed learner is one of `ids`. */
  predicate Known(ids: set<Id>, learners: seq<LearnerEntry>)
  {
    forall l :: l in learners ==> l.learnerId in ids
  }

  lemma KnownGrows(ids: set<Id>, learners: seq<LearnerEntry>, i: nat)
    requires i < |learners| && Known(ids, learners[..i]) && learners[i].learnerId in ids
    ensures Known(ids, learners[..i + 1])
  {
    assert learners[..i + 1] == learners[..i] + [learners[i]];
  }

  /** Every foreign key of the enrollments to create exists. */
  predicate EnrollmentTargetsExist(db: Database, data: EnrollmentDto, tutorId: Id)
    reads db
  {
    && data.courseId in Ids(db.courses)
    && tutorId in Ids(db.users)
    && Known(Ids(db.users), data.learners)
  }

  /** addEnrollment as evidently intended: the ownership check is awaited
      and every create is awaited inside the transaction, so the learners are
      enrolled all together or, when a create fails, not at all (the failure
      itself is swallowed). */
  method AddEnrollmentIntended(db: Database, data: EnrollmentDto, tutorId: Id) returns (r: Outcome)
    requires db.Valid()
    modifies db`enrollments, db`nextId
    ensures db.Valid()
    ensures data.courseId in Ids(db.courses) && Find(db.courses, data.courseId).value.tutorId != tutorId ==>
      r == Failed(Forbidden("Your not allowed to perform this action")) && unchanged(db)
    ensures data.courseId in Ids(db.courses) && Find(db.courses, data.courseId).value.tutorId == tutorId && EnrollmentTargetsExist(db, data, tutorId) ==>
      && r == Done
      && db.enrollments == old(db.enrollments) + EnrollmentRows(old(db.nextId), data.learners, tutorId, data.courseId)
      && db.nextId == old(db.nextId) + |data.learners|
    ensures !(data.courseId in Ids(db.courses) && Find(db.courses, data.courseId).value.tutorId != tutorId) && !EnrollmentTargetsExist(db, data, tutorId) ==>
      r == Done && db.enrollments == old(db.enrollments)
  {
    var course := Find(db.courses, data.courseId);
    if course.None? {
      // the check fails with a plain Error, which the catch swallows
      return Done;
    }
    if course.value.tutorId != tutorId {
      return Failed(Forbidden("Your not allowed to perform this action"));
    }
    if tutorId !in Ids(db.users) {
      // the first create fails on the tutor's foreign key
      return Done;
    }
    var before := db.enrollments;
    var first := db.nextId;
    var users := db.users;
    var i := 0;
    while i < |data.learners|
      invariant 0 <= i <= |data.learners|
      invariant db.Valid() && db.users == users
      invariant db.nextId == first + i
      invariant db.enrollments == before + EnrollmentRows(first, data.learners[..i], tutorId, data.courseId)
      invariant Known(Ids(users), data.learners[..i])
    {
      var learnerId := data.learners[i].learnerId;
      if learnerId !in Ids(users) {
        // the create fails on its foreign key: the transaction rolls back
        BelowGrows(before, first, db.nextId);
        db.enrollments := before;
        assert data.learners[i] in data.learners;
        return Done;
      }
      var id := db.InsertEnrollment(Enrollment(learnerId, tutorId, data.courseId));
      EnrollmentRowsGrow(first, data.learners, i, tutorId, data.courseId);
      KnownGrows(Ids(users), data.learners, i);
      i := i + 1;
    }
    assert data.learners[..i] == data.learners;
    r := Done;
  }

  /** No duplicate check: a learner listed twice is enrolled twice. */
  lemma DuplicatesEnrolledTwice(next: Id, learners: seq<LearnerEntry>, tutorId: Id, courseId: Id, i: nat, j: nat)
    requires i < j < |learners| && learners[i].learnerId == learners[j].learnerId
    ensures var rows := EnrollmentRows(next, learners, tutorId, courseId);
      rows[i].id != rows[j].id && rows[i].val == rows[j].val
  {
  }

  /** The request that shows the two versions apart: one listed learner,
      all rows present, the caller owning the course. */
  lemma AddEnrollmentWritesNothing(before: Table<Enrollment>, next: Id)
    ensures var data := EnrollmentDto(5, [LearnerEntry(3, "Ada", "ada@example.org")]);
      before + EnrollmentRows(next, data.learners, 2, data.courseId) == before + [Row(next, Enrollment(3, 2, 5))]
      && before + EnrollmentRows(next, data.learners, 2, data.courseId) != before
  {
    var data := EnrollmentDto(5, [LearnerEntry(3, "Ada", "ada@example.org")]);
    var after := before + EnrollmentRows(next, data.learners, 2, data.courseId);
    assert after == before + [Row(next, Enrollment(3, 2, 5))];
    assert |after| != |before|;
  }

  /** An enrollment with this id belongs to this tutor. */
  predicate Owns(t: Table<Enrollment>, enrollmentId: Id, tutorId: Id)
  {
    Find(t, enrollmentId).Some? && Find(t, enrollmentId).value.tutorId == tutorId
  }

  /** deleteEnrollment: removes and returns the enrollment when both its id
      and its tutor match, and refuses otherwise. */
  method DeleteEnrollment(db: Database, enrollmentId: Id, tutorId: Id) returns (r: Result<Row<Enrollment>>)
    requires db.Valid()
    modifies db`enrollments
    ensures db.Valid()
    ensures !Owns(old(db.enrollments), enrollmentId, tutorId) ==>
      r == Err(Forbidden("Your not allowed to perform this action ")) && db.enrollments == old(db.enrollments)
    ensures Owns(old(db.enrollments), enrollmentId, tutorId) ==>
      && r == Ok(Row(enrollmentId, Find(old(db.enrollments), enrollmentId).value))
      && db.enrollments == Delete(old(db.enrollments), enrollmentId)
  {
    if !Owns(db.enrollments, enrollmentId, tutorId) {
      return Err(Forbidden("Your not allowed to perform this action "));
    }
    var e := Find(db.enrollments, enrollmentId).value;
    DeleteWellKeyed(db.enrollments, enrollmentId, db.nextId);
    db.enrollments := Delete(db.enrollments, enrollmentId);
    r := Ok(Row(enrollmentId, e));
  }

  /** After a successful delete the id finds nothing and every other
      enrollment is still found. */
  lemma DeleteEnrollmentEffect(t: Table<Enrollment>, enrollmentId: Id, tutorId: Id, k: Id)
    requires Keyed(t) && Owns(t, enrollmentId, tutorId)
    ensures !Owns(Delete(t, enrollmentId), enrollmentId, tutorId)
    ensures k != enrollmentId ==> Find(Delete(t, enrollmentId), k) == Find(t, k)
  {
    FindAfterDelete(t, enrollmentId, k);
    FindAfterDelete(t, enrollmentId, enrollmentId);
  }

  /** fetchEnrollmentListByTutorId: exactly the tutor's enrollments. */
  function FetchEnrollmentListByTutorId(t: Table<Enrollment>, tutorId: Id): (r: Table<Enrollment>)
    ensures forall row :: row in r <==> row in t && row.val.tutorId == tutorId
    ensures |r| <= |t|
  {
    Filter(t, (row: Row<Enrollment>) => row.val.tutorId == tutorId)
  }

  /** The foreign keys the join reads: every enrolled course exists and every
      course's tutor exists. */
  ghost predicate CoursesReachable(users: Table<User>, courses: Table<Course>, t: Table<Enrollment>)
  {
    && (forall row :: row in t ==> row.val.courseId in Ids(courses))
    && (forall c :: c in courses ==> c.val.tutorId in Ids(users))
  }

  function CourseEntry(users: Table<User>, courses: Table<Course>, modules: Table<Module>, courseId: Id): (e: EnrolledCourse)
    requires courseId in Ids(courses) && Find(courses, courseId).value.tutorId in Ids(users)
    ensures e.courseId == courseId && e.course == Find(courses, courseId).value
    ensures forall m :: m in e.modules <==> m in modules && m.val.courseId == courseId
    ensures var tutor := Find(users, e.course.tutorId).value;
      e.tutor == TutorName(tutor.name, tutor.lastName)
  {
    var course := Find(courses, courseId).value;
    var tutor := Find(users, course.tutorId).value;
    EnrolledCourse(courseId, course, Select(modules, (m: Module) => m.courseId == courseId), TutorName(tutor.name, tutor.lastName))
  }

  /** Under the primary key constraint, the name in an entry is the name
      and last name of the user stored under the course's tutorId. */
  lemma EntryNamesStoredTutor(users: Table<User>, courses: Table<Course>, modules: Table<Module>, courseId: Id, u: User)
    requires Keyed(users) && courseId in Ids(courses)
    requires Row(Find(courses, courseId).value.tutorId, u) in users
    ensures CourseEntry(users, courses, modules, courseId).tutor == TutorName(u.name, u.lastName)
  {
    FindKeyed(users, Find(courses, courseId).value.tutorId, u);
  }

  /** getLearnerCourseBaseOnEnrollment: one entry per enrollment of the
      learner, in table order, each with the course's own modules. */
  function GetLearnerCourseBaseOnEnrollment(users: Table<User>, courses: Table<Course>, modules: Table<Module>, t: Table<Enrollment>, learnerId: Id): (r: seq<EnrolledCourse>)
    requires CoursesReachable(users, courses, t)
    ensures |r| == |Select(t, (e: Enrollment) => e.learnerId == learnerId)|
    ensures forall i :: 0 <= i < |r| ==>
      var e := Select(t, (e: Enrollment) => e.learnerId == learnerId)[i];
      r[i].courseId == e.val.courseId && Find(courses, r[i].courseId) == Some(r[i].course)
      && (forall m :: m in r[i].modules <==> m in modules && m.val.courseId == e.val.courseId)
      && r[i].course.tutorId in Ids(users)
      && r[i].tutor == TutorName(Find(users, r[i].course.tutorId).value.name, Find(users, r[i].course.tutorId).value.lastName)
  {
    var mine := Select(t, (e: Enrollment) => e.learnerId == learnerId);
    assert forall row :: row in mine ==> row in t;
    seq(|mine|, i requires 0 <= i < |mine| => CourseEntry(users, courses, modules, mine[i].val.courseId))
  }
}
