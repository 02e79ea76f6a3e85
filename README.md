# Elearn API — a Dafny model of the service core

This project models the service layer of the e-learning backend (a NestJS
application over a Prisma/PostgreSQL database) and proves properties of it.
It covers:

- **Authentication:** tutor registration, the login decision and the content
  of the signed token.
- **Users:** tutor and learner creation, password and profile changes,
  account deletion by role, and the administrator's suspension switch and
  user list.
- **Collaborations:** the tutor–learner links.
- **Enrollments.**
- **Courses:** fetching a course with its ordered modules, the bulk creation
  of modules with their content, the module/content update with its
  content-type switch, the course update and the course deletion.
- **The module-content validator.**
- **The request guards:** the two role guards, the two status guards, the
  tutor-id guard and the JWT guard.

The database is the class `Store.Database`:

- Each table is a sequence of keyed rows, in insertion order.
- A single autoincrement counter supplies the keys.
- A ghost set stands for the files in the upload directory.
- `Valid()` is the primary-key constraint of every table plus the unique
  email column.

The queries the services run are pure functions over table values, in
module `Tables`: `Find` for findUnique, `FindWhere`/`FindFirst` for findFirst,
`Select`/`Filter` for findMany, and `Replace`/`UpdateRow`/`Delete` for update
and delete. The services' state-changing operations are methods on a
`Database`:

- Each such method names the tables it may write in a field-granular
  `modifies` clause.
- Each states its result and the whole new content of those tables.
- Each is proved against a specification function (`FetchedCourse`,
  `CreateAll`, `ContentUpdated`, `PasswordChange`, `CourseDeletion`, …).
- Lemmas prove what the source promises about those functions.

The model follows the code where the code does something other than its
method names and messages suggest:

- Deleting a course does not check ownership: the check's promise is never
  awaited.
- Bulk enrollment writes nothing: the queries are built but never awaited.
- Changing a password to the same password ends with the generic message,
  not with the specific one the method throws.
- Updating a user's info passes every error through unchanged, including
  the unique-constraint error of a duplicate email.
- A module of another course passes the update checks.

These cases are listed under "## Findings" below.

Modules and files:

| file | module | models |
|---|---|---|
| common.dfy | Common | ids, Option/Result, the exceptions, the stored enums |
| tables.dfy | Tables | Prisma's findUnique/findFirst/findMany/create/update/delete on a table |
| sorting.dfy | Sorting | `orderBy` on a query result |
| entities.dfy | Entities | the Prisma models, the authenticated caller |
| store.dfy | Store | the database and its constraints |
| credentials.dfy | Credentials | argon2 hash and verify |
| course_dto.dfy | CourseDto | the course request bodies |
| module_content_validator.dfy | ModuleContentValidator | `isContentValid` |
| course_queries.dfy | CourseQueries | fetchCourseWithModules, removeNullContent, checkIfCourseMatchTutorId, findModuleWithSpecificContent |
| course_content.dfy | CourseContent | the course writes as functions on table values |
| course_service.dfy | CourseService | the course service's state-changing methods |
| auth_service.dfy | AuthService | register, login, getRolename, signToken |
| user_service.dfy | UserService | the user service |
| collaboration_service.dfy | CollaborationService | the collaboration service |
| enrollment_service.dfy | EnrollmentService | the enrollment service |
| common_role_guard.dfy, auth_role_guard.dfy, common_status_guard.dfy, auth_status_guard.dfy, tutor_id_guard.dfy, jwt_guard.dfy | one module each | the guards |

## Model

| member | source | states |
|---|---|---|
| Store.Database.CreateUser | server/src/auth/auth.service.ts:29-39 | user.create fails with the unique-constraint error when the email is taken and changes nothing; otherwise it appends the user under the next key and keeps keys and emails unique |
| ModuleContentValidator.ConvertEmptyToNull | server/src/common/validators/is-module-content-valid.constraints.ts:8-10 | the result is null exactly for undefined, null and the empty string; anything else is returned unchanged |
| ModuleContentValidator.Validate | server/src/common/validators/is-module-content-valid.constraints.ts:14-27 | for each content type, the exact condition on url/filePath and duration/pageCount; an unknown type is always refused |
| ModuleContentValidator.ValidateIgnoresValue | server/src/common/validators/is-module-content-valid.constraints.ts:14-15 | the verdict does not depend on the decorated property's own value |
| ModuleContentValidator.ZeroIsNotEmpty | server/src/common/validators/is-module-content-valid.constraints.ts:17-19 | a zero duration is refused while a missing, null or empty one is accepted |
| CommonRoleGuard.Upper | server/src/common/guard/role.guard.ts:26 | toUpperCase on ASCII: same length, each letter a–z raised, every other character kept |
| CommonRoleGuard.AnyRoleMatches | server/src/common/guard/role.guard.ts:25-27 | true iff some required role equals the caller's role ignoring case |
| CommonRoleGuard.CanActivate | server/src/common/guard/role.guard.ts:13-35 | no roles metadata admits; otherwise it admits iff some role matches ignoring case, else Forbidden with the guard's message |
| CommonRoleGuard.UpperIdempotent | server/src/common/guard/role.guard.ts:26 | upper-casing twice is upper-casing once |
| CommonRoleGuard.MoreRolesNeverDeny | server/src/common/guard/role.guard.ts:25-27 | widening the role list never turns away an admitted caller |
| CommonRoleGuard.CaseIgnored | server/src/common/guard/role.guard.ts:26 | callers whose role names differ only in case get the same verdict |
| CommonRoleGuard.EmptyRolesDeny | server/src/common/guard/role.guard.ts:18-33 | an empty roles list (truthy) refuses everyone |
| AuthRoleGuard.Satisfies | server/src/auth/guard/role.guard.ts:25-35 | 'tutor' holds iff isTutor, 'admin' iff isAdmin, any other name never |
| AuthRoleGuard.AnySatisfied | server/src/auth/guard/role.guard.ts:25-35 | true iff some listed role is satisfied |
| AuthRoleGuard.CanActivate | server/src/auth/guard/role.guard.ts:13-42 | no metadata admits; otherwise it admits iff 'tutor' is listed and the user is a tutor, or 'admin' is listed and the user is an admin, else Forbidden |
| AuthRoleGuard.OtherNamesNeverAdmit | server/src/auth/guard/role.guard.ts:25-35 | a list naming neither 'tutor' nor 'admin' (upper-case names included) refuses everyone |
| AuthRoleGuard.FlaglessUserRefused | server/src/auth/guard/role.guard.ts:25-35 | a user with neither flag is refused wherever roles are declared |
| CommonStatusGuard.CanActivate | server/src/common/guard/status.guard.ts:10-17 | refuses with Forbidden exactly a SUSPENDED caller; any other caller passes |
| CommonStatusGuard.InactivePasses | server/src/common/guard/status.guard.ts:12-16 | an INACTIVE caller passes |
| AuthStatusGuard.CanActivate | server/src/auth/guard/status.guard.ts:5-12 | true iff the caller is not SUSPENDED |
| AuthStatusGuard.AgreesWithCommonStatusGuard | server/src/auth/guard/status.guard.ts:5-12 | both status guards admit exactly the same callers |
| TutorIdGuard.Decide | server/src/common/guard/tutor-id.guard.ts:13-27 | no user gives Unauthorized; the user passes iff its role is exactly 'TUTOR', with its id as result; any other role gives Forbidden |
| TutorIdGuard.CanActivate | server/src/common/guard/tutor-id.guard.ts:13-27 | on success writes the caller's id to request.tutorId and returns true; on refusal leaves the request unchanged |
| TutorIdGuard.StricterThanRoleGuard | server/src/common/guard/tutor-id.guard.ts:21-26 | whoever passes also passes the role guard for 'tutor', but the lower-case role 'tutor' passes the role guard and is refused here |
| JwtGuard.HandleRequest | server/src/common/guard/jwt.guard.ts:6-18 | the user is returned iff there is no error and a user; an expired token gives the session-expired message, another error is rethrown, no user gives the not-validated message |
| JwtGuard.ErrorTakesPrecedence | server/src/common/guard/jwt.guard.ts:7-14 | an error decides the outcome whatever user came with it |
| Credentials.VerifyHash | server/src/auth/auth.service.ts:74-77 | a hash verifies the password it was made from, and no other |
| AuthService.GetRolename | server/src/auth/auth.service.ts:89-98 | role 1 is ADMIN, 2 TUTOR, every other id LEARNER |
| AuthService.SignToken | server/src/auth/auth.service.ts:100-123 | a 12h token whose claims (sub, email, status, company, role) and the returned user summary describe the same stored user |
| AuthService.FindUserByEmail | server/src/auth/auth.service.ts:64-72 | finds a user holding the email, and None iff no user holds it |
| AuthService.Login | server/src/auth/auth.service.ts:62-87 | an unknown email is refused; a token is issued only for a stored user whose password verifies and who is not suspended; every refusal is one of the two Unauthorized messages |
| AuthService.LoginDecision | server/src/auth/auth.service.ts:62-87 | with unique emails: a wrong password is refused whatever the status, a suspended account with the right password gets no token, any other account gets its own token |
| AuthService.NewTutor | server/src/auth/auth.service.ts:29-39 | the stored tutor has role 2, status ACTIVE and a hash that verifies the given password |
| AuthService.RegisterError | server/src/auth/auth.service.ts:50-58 | a duplicate email becomes Forbidden "Email already in use", another Prisma known error a generic Error, anything else is rethrown |
| AuthService.Register | server/src/auth/auth.service.ts:25-60 | a taken email is refused and nothing changes; otherwise exactly one ACTIVE tutor row is appended under the next key and returned without its password |
| AuthService.LoginAfterRegister | server/src/auth/auth.service.ts:25-87 | logging in right after registering, with the same credentials, yields a TUTOR token for the new account |
| UserService.CreateTutor | server/src/user/user.service.ts:29-56 | like register: refusal on a taken email, else one new tutor row returned without its password |
| UserService.NewLearner | server/src/user/user.service.ts:60-77 | the learner stored has role 3, status INACTIVE, the tutor's company and a hash that verifies the temporary password |
| UserService.CreateLearner | server/src/user/user.service.ts:59-131 | a taken email is refused; otherwise the learner and an ACTIVE collaboration with the tutor are stored together, or neither when the collaboration cannot be stored; a caller whose id is the new key leaves the learner stored without a collaboration |
| UserService.LinkLearner | server/src/user/user.service.ts:65-92 | the collaboration half of createLearner's transaction, rolling back the learner on failure, and skipping the insert when the tutor is the learner |
| UserService.NewLearnerLinked | server/src/user/user.service.ts:79-89 | findCollaboration finds the collaboration createLearner stored for the new learner and its tutor |
| UserService.StatusAfterPasswordChange | server/src/user/user.service.ts:153 | INACTIVE becomes ACTIVE, every other status is kept |
| UserService.PasswordChange | server/src/user/user.service.ts:134-196 | succeeds iff the user exists and the old password is given, verifies and differs from the new one; a wrong old password is Forbidden, every other failure the generic BadRequest |
| UserService.PasswordChangeIntended | server/src/user/user.service.ts:147-151 | corrected: the same-password refusal keeps its own message, and success is unchanged |
| UserService.SamePasswordMessageLost | server/src/user/user.service.ts:186-195 | repeating the current password yields the generic message as written and the specific one as intended |
| UserService.NewPasswordVerifies | server/src/user/user.service.ts:155-164 | after a change, the new password verifies and the old one no longer does |
| UserService.UpdatePassword | server/src/user/user.service.ts:134-196 | writes exactly the user's new hash and status when PasswordChange succeeds, else returns its error and changes nothing |
| UserService.UserUpdated | server/src/user/user.service.ts:214-236 | defined fields replace the stored ones; password, role and status are never written |
| UserService.UserUpdatedIdempotent | server/src/user/user.service.ts:214-236 | applying the same profile update twice is applying it once |
| UserService.UserInfoError | server/src/user/user.service.ts:256-261 | as written, every error is rethrown unchanged |
| UserService.UserInfoErrorIntended | server/src/user/user.service.ts:256-261 | corrected: only BadRequest and NotFound pass through, anything else becomes the generic BadRequest |
| UserService.DuplicateEmailLeaksRaw | server/src/user/user.service.ts:258 | a duplicate email's Prisma error reaches the caller raw as written, but as the generic BadRequest as intended |
| UserService.UpdateUserInfo | server/src/user/user.service.ts:208-263 | a missing user, a request without fields, or an email held by another user changes nothing and fails; otherwise exactly that row gets the defined fields |
| UserService.DeleteAccountDecision | server/src/user/user.service.ts:281-335 | the caller may delete iff it is a learner deleting itself, a tutor deleting itself or one of its collaborators, or an admin deleting someone else; a tutor is otherwise refused with NotFound, the others with Forbidden |
| UserService.DeleteUserAccount | server/src/user/user.service.ts:281-308 | a refused caller changes nothing; an allowed delete removes exactly that row, and a missing user fails with BadRequest |
| UserService.SuspensionToggled | server/src/user/user.service.ts:354-355 | ACTIVE becomes SUSPENDED; every other status becomes ACTIVE |
| UserService.SuspensionToggledTwice | server/src/user/user.service.ts:354-355 | switching twice restores ACTIVE and SUSPENDED but turns INACTIVE into SUSPENDED |
| UserService.SuspensionMessage | server/src/user/user.service.ts:370 | the message names the new state |
| UserService.ToggleUserSuspension | server/src/user/user.service.ts:338-383 | an admin cannot switch itself, a missing user is NotFound, otherwise only that user's status flips |
| UserService.GetAllUsers | server/src/user/user.service.ts:386-415 | exactly the tutors and learners, never an admin, each with its role name |
| CollaborationService.AddNewCollaboration | server/src/collaboration/collaboration.service.ts:17-47 | same or null ids insert nothing; a missing user fails and changes nothing; otherwise one ACTIVE row is appended |
| CollaborationService.InsertKeepsInvariants | server/src/collaboration/collaboration.service.ts:22-37 | an inserted collaboration never links a user to itself and only links existing users |
| CollaborationService.FindCollaboration | server/src/collaboration/collaboration.service.ts:49-71 | finds a collaboration between exactly these two users, and None iff there is none |
| CollaborationService.GetCollaborationByTutorId | server/src/collaboration/collaboration.service.ts:73-101 | the learner of every collaboration of the tutor, whatever its status, with the stored learner fields, and no one else |
| CollaborationService.Newest | server/src/collaboration/collaboration.service.ts:105-113 | a permutation of the collaborations, most recent first |
| CollaborationService.GetAllCollaborations | server/src/collaboration/collaboration.service.ts:103-132 | every collaboration exactly once, newest first, with the names and emails of both users |
| CollaborationService.DeleteCollaboration | server/src/collaboration/collaboration.service.ts:134-166 | a missing collaboration is NotFound; a caller that is neither admin nor its tutor gets a generic Error; otherwise exactly that row is deleted |
| CollaborationService.Toggled | server/src/collaboration/collaboration.service.ts:190-191 | the status always changes; ACTIVE becomes INACTIVE |
| CollaborationService.ToggledTwice | server/src/collaboration/collaboration.service.ts:190-191 | flipping twice restores the status |
| CollaborationService.UpdateCollaborationStatus | server/src/collaboration/collaboration.service.ts:168-206 | same refusals as delete; otherwise only that row's status flips, and the new status is returned |
| CollaborationService.UpdateStatusTwiceRestores | server/src/collaboration/collaboration.service.ts:168-206 | two status updates of a collaboration leave the table as it was |
| EnrollmentService.AddEnrollment | server/src/enrollment/enrollment.service.ts:19-50 | as written: ends normally and writes nothing |
| EnrollmentService.EnrollmentRows | server/src/enrollment/enrollment.service.ts:34-42 | one enrollment per listed learner, in order, with the tutor and the course, under consecutive keys |
| EnrollmentService.AddEnrollmentIntended | server/src/enrollment/enrollment.service.ts:19-50 | corrected: a non-owner is Forbidden; an owner with valid references gets all the enrollments; a failing create writes none |
| EnrollmentService.DuplicatesEnrolledTwice | server/src/enrollment/enrollment.service.ts:34-42 | a learner listed twice gets two enrollments under different keys |
| EnrollmentService.AddEnrollmentWritesNothing | server/src/enrollment/enrollment.service.ts:34-42 | for one listed learner the intended write adds a row that the as-written one does not |
| EnrollmentService.DeleteEnrollment | server/src/enrollment/enrollment.service.ts:52-74 | deletes and returns the enrollment iff it exists and belongs to the tutor, else Forbidden and nothing changes |
| EnrollmentService.DeleteEnrollmentEffect | server/src/enrollment/enrollment.service.ts:52-74 | after the delete the id finds nothing and every other enrollment is still found |
| EnrollmentService.FetchEnrollmentListByTutorId | server/src/enrollment/enrollment.service.ts:76-94 | exactly the tutor's enrollments |
| EnrollmentService.CourseEntry | server/src/enrollment/enrollment.service.ts:99-111 | the stored course, exactly its modules, and the name and last name of the user its tutorId finds |
| EnrollmentService.EntryNamesStoredTutor | server/src/enrollment/enrollment.service.ts:103-108 | under the key constraint the entry carries the name and last name of the user stored under the course's tutorId |
| EnrollmentService.GetLearnerCourseBaseOnEnrollment | server/src/enrollment/enrollment.service.ts:96-113 | one entry per enrollment of the learner, each with the enrolled stored course, exactly that course's modules, and its stored tutor's name and last name |
| CourseQueries.Related | server/src/course/course.service.ts:46-50 | an included relation is the module's own content row, or null iff the module has none |
| CourseQueries.ViewOf | server/src/course/course.service.ts:41-51 | the module with its three relations included |
| CourseQueries.ModulesInOrder | server/src/course/course.service.ts:41-51 | the course's modules ordered by `order`, each exactly once, none from another course |
| CourseQueries.WithoutNulls | server/src/course/course.service.ts:638-653 | removeNullContent on one module: null keys are deleted, present ones kept |
| CourseQueries.CleanedViewShowsContent | server/src/course/course.service.ts:638-653 | after cleaning, each key holds the module's content or is missing exactly when there is none |
| CourseQueries.RemoveNullContent | server/src/course/course.service.ts:638-653 | in place over the fetched modules, each module is cleaned and none is removed or reordered |
| CourseQueries.Cleaned | server/src/course/course.service.ts:638-653 | position by position, the cleaned modules |
| CourseQueries.CleanedSorted | server/src/course/course.service.ts:638-653 | cleaning keeps the modules ordered |
| CourseQueries.CleanedCopy | server/src/course/course.service.ts:638-653 | copying the ordered modules into an array and cleaning it in place yields Cleaned of them |
| CourseQueries.CourseModuleViews | server/src/course/course.service.ts:35-60 | ordered by `order`; every listed module belongs to the course and shows its content; every module of the course is listed |
| CourseQueries.FetchedCourse | server/src/course/course.service.ts:35-60 | NotFound "Course not found" iff the course is missing; otherwise the stored course with CourseModuleViews |
| CourseQueries.FetchCourseWithModules | server/src/course/course.service.ts:35-60 | the method (array plus removeNullContent) returns exactly FetchedCourse |
| CourseQueries.CheckIfCourseMatchTutorId | server/src/course/course.service.ts:605-624 | a plain Error iff the course is missing; otherwise true iff the stored tutorId is the given one |
| CourseQueries.OwnershipCheck | server/src/course/course.service.ts:605-624 | under the key constraint, true iff the course row with that id has that tutor |
| CourseQueries.FindModuleWithSpecificContent | server/src/course/course.service.ts:251-272 | the module with that key, with its content included, when one of its relations has the content key; None iff no such module |
| CourseContent.WithContent | server/src/course/course.service.ts:124-163 | a content create changes no course or module |
| CourseContent.WithoutContent | server/src/course/course.service.ts:580-602 | a content delete changes no course or module |
| CourseContent.ContentOfWith | server/src/course/course.service.ts:124-163 | a create adds one content row to the owning module and nothing to any other |
| CourseContent.ContentOfWithout | server/src/course/course.service.ts:580-602 | a delete by key removes exactly that row from the module that held it |
| CourseContent.NewContent | server/src/course/course.service.ts:124-163 | the content row of the declared type; absent or null numbers default to 0; None iff the number is an empty string |
| CourseContent.CreateAll | server/src/course/course.service.ts:105-170 | the loop never touches courses, only adds modules, and never lowers the key counter |
| CourseContent.CreateOneValid | server/src/course/course.service.ts:111-164 | a valid spec creates its module and exactly one content row of its type, keyed right after the module |
| CourseContent.CreateAllKeepsEarlier | server/src/course/course.service.ts:111-164 | later turns leave the content of earlier modules alone |
| CourseContent.CreateOneFresh | server/src/course/course.service.ts:111-164 | a turn leaves no content at keys not yet handed out |
| CourseContent.CreateAllRuns | server/src/course/course.service.ts:105-170 | on valid specs for an existing course the run ends normally, two keys per spec |
| CourseContent.CreateAllCreatesFirst | server/src/course/course.service.ts:111-164 | the first spec gets its module under the first key and exactly one content row of its type, which later turns leave alone |
| CourseContent.CreateAllCreates | server/src/course/course.service.ts:105-170 | spec i gets its module under the key next+2i and exactly one content row of its type |
| CourseContent.CreateAllValid | server/src/course/course.service.ts:105-170 | all of the above for every spec at once |
| CourseContent.EmptyDurationPassesValidationButFails | server/src/course/course.service.ts:125-136 | an empty-string duration passes isContentValid, yet its content create fails the run |
| CourseContent.ChangedContent | server/src/course/course.service.ts:359-389 | the new content row has the requested type and module, and the request's url, file, duration and page count with 0 defaults |
| CourseContent.ContentTypeChanged | server/src/course/course.service.ts:353-410 | an unknown type writes nothing; courses and modules never change |
| CourseContent.TypeChangeKeepsOneContent | server/src/course/course.service.ts:353-410 | after a switch the module holds exactly one content row, of the new type under the new key, and other modules lose at most the old row |
| CourseContent.ExistingContentUpdated | server/src/course/course.service.ts:308-351 | without a url (VIDEO/WEBLINK) or a file (PDF) nothing changes; courses and modules never change |
| CourseContent.ExistingUpdateKeepsContent | server/src/course/course.service.ts:308-351 | which content rows each module holds does not change |
| CourseContent.ModuleUpdateFor | server/src/course/course.service.ts:215-224 | a title or content type is written iff given and different from the stored one |
| CourseContent.ApplyModuleUpdate | server/src/course/course.service.ts:227-233 | fails iff the content type written is outside the enum; otherwise only title and content type change |
| CourseContent.ModuleUpdateSettles | server/src/course/course.service.ts:215-233 | once written, the same request finds nothing to write |
| CourseContent.CourseUpdateFor | server/src/course/course.service.ts:436-447 | a key is set iff the request's field `!==` the stored one, undefined always differing |
| CourseContent.ApplyCourseUpdate | server/src/course/course.service.ts:449-454 | fails iff title or status is set to null, or the status is outside the enum; the tutor is kept and undefined leaves a column alone |
| CourseContent.CourseUpdateSettles | server/src/course/course.service.ts:436-454 | applying the same request to the updated course leaves it as it is |
| CourseContent.SameCourseNoUpdate | server/src/course/course.service.ts:436-454 | a request repeating the stored fields sets no key |
| CourseContent.CourseDeletion | server/src/course/course.service.ts:521-547 | as written: fails with BadRequest iff the course is missing, otherwise removes exactly that row, whoever asks |
| CourseContent.CourseDeletionChecked | server/src/course/course.service.ts:526-534 | corrected: succeeds iff the course exists and the caller is admin or its tutor; a non-owner is Forbidden |
| CourseContent.DeletionIgnoresCaller | server/src/course/course.service.ts:526-534 | as written, the caller makes no difference |
| CourseContent.NonOwnerDeletesCourse | server/src/course/course.service.ts:526-534 | tutor 8 deletes tutor 7's course as written, and is forbidden as corrected |
| CourseContent.CheckedDeletionOwnerOrAdmin | server/src/course/course.service.ts:526-534 | the corrected deletion admits an admin or the stored owner, no one else |
| CourseService.InsertContent | server/src/course/course.service.ts:124-163 | the content create leaves the tables WithContent under the next key |
| CourseService.CreateModule | server/src/course/course.service.ts:111-164 | one loop turn, exactly CreateOne |
| CourseService.CreateModuleAndContent | server/src/course/course.service.ts:105-170 | the loop leaves exactly the tables, counter and outcome of CreateAll |
| CourseService.RemoveFile | server/src/course/course.service.ts:626-636 | the named upload is gone; a missing or empty name changes nothing |
| CourseService.DeleteDependingOnContentType | server/src/course/course.service.ts:580-602 | exactly WithoutContent on the table of the type |
| CourseService.HandleContentTypeChange | server/src/course/course.service.ts:353-410 | exactly ContentTypeChanged, one key used iff the type is valid, the old PDF's file removed |
| CourseService.UpdateExistingContent | server/src/course/course.service.ts:308-351 | exactly ExistingContentUpdated, a replaced PDF's old file removed |
| CourseService.UpdateContent | server/src/course/course.service.ts:274-306 | module key 0 is refused; otherwise exactly ContentUpdated, and detached failures never reach the caller |
| CourseService.ModuleToUpdate | server/src/course/course.service.ts:184-204 | as written: a missing course is an Error, a non-owner Unauthorized; otherwise the module is found by its key and content key, in whatever course |
| CourseService.ModuleToUpdateInCourse | server/src/course/course.service.ts:184-204 | corrected: a module found belongs to the checked course, which the tutor owns |
| CourseService.ForeignModulePassesChecks | server/src/course/course.service.ts:196-204 | the owner of course 1 passes the checks for a module of course 2 by naming course 1 |
| CourseService.WriteModuleChanges | server/src/course/course.service.ts:215-233 | module.update with the differing keys, and no call when none differs |
| CourseService.InvalidTypeWritesNothing | server/src/course/course.service.ts:207-233 | when module.update refuses the content type, the content change before it wrote nothing either |
| CourseService.ApplyModuleRequest | server/src/course/course.service.ts:207-236 | content change, module write, and the course fetched again |
| CourseService.UpdateModule | server/src/course/course.service.ts:175-249 | a failing check changes nothing and its error escapes; otherwise the content and module writes, then FetchedCourse |
| CourseService.UpdateCourse | server/src/course/course.service.ts:415-483 | a missing course is NotFound; otherwise the differing keys are written, or a refused write is swallowed into an empty result, and the course is fetched again |
| CourseService.DeleteCourse | server/src/course/course.service.ts:521-547 | exactly CourseDeletion |

## Left out

- Controllers, DTO validation pipes other than `isContentValid`, the global
  exception filter and the HTTP envelope are not part of this model.
- Mail sending is the boolean parameter `mailOk`, and the generated
  temporary password and the creation time are parameters.
- The JWT strategy, the token signature and argon2's salt are out. Hashing is
  an injective tag, so `Verify` succeeds exactly for the hashed password.
- File-system I/O is out: the upload directory is a ghost set of file names,
  and an unlink failure is not modelled.
- The schema's referential actions on delete (cascade or restrict) are out,
  because the schema is not part of this model. Deleting a user or a course
  removes only that row. The invariant `Database.Valid` therefore does not
  include the foreign keys: GetCollaborationByTutorId, GetAllCollaborations
  and GetLearnerCourseBaseOnEnrollment require the referenced users and
  courses to exist, as the schema's foreign keys guarantee.
- The database's one-to-one uniqueness of a content row's module is not
  stated as a table constraint.
- Prisma failures are modelled only for a taken email, a missing row, a
  missing referenced row and an out-of-enum value. Connection errors are out.
- Every table takes its keys from one shared counter, not one sequence per
  table. Keys stay unique, but their exact values differ from the database's.
- Concurrency is out: interleaving with other requests, the unhandled
  rejections of floating promises, and when a transaction closes around
  detached calls.
- UpdateContent: the detached content change is modelled as running to
  completion before the module write. Its writes are not rolled back when the
  transaction later fails.
- CommonRoleGuard.Upper: toUpperCase is modelled on ASCII letters only.
  Non-ASCII case mapping is out.
- A request without a user is left out of the role and status guards, which
  would throw a TypeError there.
- UserService.UpdateUserInfo: a field sent as null is treated like a value.
  The DTO's null handling is out.
- CourseService.UpdateModule: `contentId` is taken as a number. The source's
  string/number mismatch with the integer key is out.
- CourseContent.CourseUpdateFor: the course title is modelled as a string,
  although the DTO declares it a number.
- CourseQueries.ModulesInOrder: modules with equal `order` are ordered by a
  fixed sort. The database's order among ties is not modelled.
- A numeric field sent as a numeric string (`"duration": "5"`) is out:
  `NumberField` has no such case. `isContentValid` would accept it and the
  integer column would refuse it, as it refuses the empty string.
- createModuleAndContent with an undefined module list is out (it would
  throw before the loop).
- getAllCourses, getCourseByTutorId, createNewCourse, updateModuleOrder and
  deleteModule of the course service are out. They are outside the modelled
  core.

## Findings

| source | as written | input that shows it | evidently intended | confidence | as-written member | corrected member |
|---|---|---|---|---|---|---|
| server/src/course/course.service.ts:526-534 | the ownership check is not awaited, so the pending promise is truthy and any caller deletes the course | course 1 of tutor 7, deleted by user 8 who is not admin | only an admin or the course's tutor deletes; others are Forbidden | high (not executed) | CourseContent.NonOwnerDeletesCourse | CourseContent.CourseDeletionChecked |
| server/src/enrollment/enrollment.service.ts:34-42 | the map callback does not return the create query, so no query is awaited and no enrollment is written | course 5 of tutor 2, one learner 3 | each listed learner is enrolled, atomically | high (not executed) | EnrollmentService.AddEnrollmentWritesNothing | EnrollmentService.AddEnrollmentIntended |
| server/src/user/user.service.ts:147-151 | the same-password BadRequest is caught and replaced by the generic message | old password p equal to the current one, new password p | the caller sees "New password cannot be the same as the old password" | high (not executed) | UserService.SamePasswordMessageLost | UserService.PasswordChangeIntended |
| server/src/user/user.service.ts:258 | `error instanceof BadRequestException \|\| NotFoundException` is always true, so every error is rethrown raw | an email already held by another user (Prisma P2002) | only BadRequest and NotFound pass through; anything else becomes "Something went wrong" | high (not executed) | UserService.DuplicateEmailLeaksRaw | UserService.UserInfoErrorIntended |
| server/src/course/course.service.ts:196-204 | the module is looked up by its key and content key only, never compared with the course whose ownership was checked | tutor 7 owns course 1 and names it, module 3 of tutor 8's course 2 with video 4 | the module must belong to the checked course, else NotFound | medium (not executed) | CourseService.ForeignModulePassesChecks | CourseService.ModuleToUpdateInCourse |
