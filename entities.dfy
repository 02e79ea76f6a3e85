/** The records of the database schema, as the services read and write them. */
module Entities {
  import opened Common

  /** A user account; `password` holds the hash, never the plain text.
      roleId 1 is ADMIN, 2 TUTOR, 3 LEARNER. */
  datatype User = User(
    name: string,
    lastName: string,
    email: string,
    password: string,
    companyName: Option<string>,
    roleId: int,
    status: UserStatus)

  /** A course, owned by the tutor `tutorId`; `status` is ACTIVE or INACTIVE. */
  datatype Course = Course(title: string, description: Option<string>, status: string, tutorId: Id)

  /** A module of a course, positioned by `order`, declaring its content type. */
  datatype Module = Module(courseId: Id, title: string, order: int, contentType: ContentType)

  datatype VideoContent = VideoContent(moduleId: Id, url: Option<string>, duration: int)

  datatype PdfContent = PdfContent(moduleId: Id, filePath: Option<string>, originalName: Option<string>, pageCount: int)

  datatype Weblink = Weblink(moduleId: Id, url: Option<string>)

  datatype CollaborationStatus = ACTIVE | INACTIVE

  /** The link between a tutor and one of its learners; `createdAt` is the
      insertion time. */
  datatype Collaboration = Collaboration(learnerId: Id, tutorId: Id, status: CollaborationStatus, createdAt: nat)

  /** A learner enrolled in a course under a tutor. */
  datatype Enrollment = Enrollment(learnerId: Id, tutorId: Id, courseId: Id)

  /** The authenticated user a request carries; `role` is the role name. */
  datatype Caller = Caller(
    id: Id,
    name: string,
    lastName: string,
    email: string,
    role: string,
    status: UserStatus,
    companyName: Option<string>)

  /** A user record as returned after `delete user.password`. */
  datatype PublicUser = PublicUser(
    id: Id,
    name: string,
    lastName: string,
    email: string,
    companyName: Option<string>,
    roleId: int,
    status: UserStatus)

  function Public(id: Id, u: User): PublicUser
  {
    PublicUser(id, u.name, u.lastName, u.email, u.companyName, u.roleId, u.status)
  }
}
