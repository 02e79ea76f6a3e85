/** The user service: account creation for tutors and learners, password and
    profile changes, account deletion by role, and the admin's suspension
    switch and user list. */
module UserService {
  import opened Common
  import opened Tables
  import opened Entities
  import opened Store
  import opened Credentials
  import opened AuthService
  import opened CollaborationService

  datatype LearnerRegisterDto = LearnerRegisterDto(name: string, lastName: string, email: string)

  /** What createLearner returns. */
  datatype LearnerCreated = LearnerCreated(user: PublicUser, emailSent: bool)

  /** UpdatePasswordDto: the old password is optional. */
  datatype UpdatePasswordDto = UpdatePasswordDto(oldPassword: Option<string>, newPassword: string)

  /** What updatePassword returns: the updated record without its password
      (its roleId is still there). */
  datatype PasswordUpdated = PasswordUpdated(updatedUser: PublicUser, emailSent: bool)

  /** UpdateUserDto: None stands for a field left undefined. */
  datatype UpdateUserDto = UpdateUserDto(name: Option<string>, lastName: Option<string>, companyName: Option<string>, email: Option<string>)

  /** A user record after `delete user.password; delete user.roleId`. */
  datatype UserInfo = UserInfo(id: Id, name: string, lastName: string, email: string, companyName: Option<string>, status: UserStatus)

  datatype UserInfoUpdated = UserInfoUpdated(user: UserInfo, emailSent: bool)

  /** The fields toggleUserSuspension selects. */
  datatype ToggledUser = ToggledUser(id: Id, name: string, lastName: string, email: string, status: UserStatus)

  datatype Suspension = Suspension(user: ToggledUser, message: string)

  /** One entry of getAllUsers. */
  datatype UserListing = UserListing(name: string, lastName: string, email: string, status: UserStatus, role: string)

  /** createTutor: the same insert as register, returning the stored user
      without its password. */
  method CreateTutor(db: Database, dto: RegisterDto) returns (r: Result<PublicUser>)
    requires db.Valid()
    modifies db`users, db`nextId
    ensures db.Valid()
    ensures old(EmailTaken(db.users, dto.email)) ==> r == Err(Forbidden("Email already in use")) && unchanged(db)
    ensures !old(EmailTaken(db.users, dto.email)) ==>
      && r == Ok(Public(old(db.nextId), NewTutor(dto)))
      && db.users == old(db.users) + [Row(old(db.nextId), NewTutor(dto))]
      && db.nextId == old(db.nextId) + 1
  {
    var created := db.CreateUser(NewTutor(dto));
    if created.Err? {
      return Err(RegisterError(created.error));
    }
    r := Ok(Public(created.value, NewTutor(dto)));
  }

  /** The learner createLearner stores: role 3, INACTIVE, the tutor's
      company and the hash of the generated temporary password. */
  function NewLearner(data: LearnerRegisterDto, tutor: Caller, temporaryPassword: string): (u: User)
    ensures u.roleId == 3 && u.status == UserStatus.INACTIVE && u.companyName == tutor.companyName
    ensures Verify(u.password, temporaryPassword)
    ensures u.email == data.email
  {
    User(data.name, data.lastName, data.email, Hash(temporaryPassword), tutor.companyName, 3, UserStatus.INACTIVE)
  }

  /** createLearner: in one transaction, the learner and an ACTIVE
      collaboration with the calling tutor; if the collaboration cannot be
      stored the learner is rolled back. The generated password and whether
      the mail went out are parameters. */
  method CreateLearner(db: Database, data: LearnerRegisterDto, tutor: Caller, temporaryPassword: string, mailOk: bool, now: nat)
    returns (r: Result<LearnerCreated>)
    requires db.Valid()
    modifies db`users, db`collaborations, db`nextId
    ensures db.Valid()
    ensures old(EmailTaken(db.users, data.email)) ==>
      r == Err(Forbidden("Email already in use")) && unchanged(db)
    ensures !old(EmailTaken(db.users, data.email)) && tutor.id in Ids(old(db.users)) ==>
      && r == Ok(LearnerCreated(Public(old(db.nextId), NewLearner(data, tutor, temporaryPassword)), mailOk))
      && db.users == old(db.users) + [Row(old(db.nextId), NewLearner(data, tutor, temporaryPassword))]
      && db.collaborations == old(db.collaborations) +
           [Row(old(db.nextId) + 1, Collaboration(old(db.nextId), tutor.id, CollaborationStatus.ACTIVE, now))]
      && db.nextId == old(db.nextId) + 2
    ensures !old(EmailTaken(db.users, data.email)) && tutor.id !in Ids(old(db.users)) && tutor.id != old(db.nextId) ==>
      && r == Err(Failure("Failed to create learner"))
      && db.users == old(db.users) && db.collaborations == old(db.collaborations)
    // a caller whose id is the learner's new key links the learner to itself,
    // which addNewCollaboration skips: the learner stays, unlinked
    ensures !old(EmailTaken(db.users, data.email)) && tutor.id == old(db.nextId) ==>
      && r == Ok(LearnerCreated(Public(old(db.nextId), NewLearner(data, tutor, temporaryPassword)), mailOk))
      && db.users == old(db.users) + [Row(old(db.nextId), NewLearner(data, tutor, temporaryPassword))]
      && db.collaborations == old(db.collaborations)
      && db.nextId == old(db.nextId) + 1
  {
    var learner := NewLearner(data, tutor, temporaryPassword);
    var before := db.users;
    var created := db.CreateUser(learner);
    if created.Err? {
      // the only failure of the insert is the email's unique constraint
      return Err(Forbidden("Email already in use"));
    }
    var linked := LinkLearner(db, before, created.value, learner, tutor, now);
    if linked.Failed? {
      return Err(Failure("Failed to create learner"));
    }
    r := Ok(LearnerCreated(Public(created.value, learner), mailOk));
  }

  /** The second half of createLearner's transaction: the collaboration of
      the learner just stored under `id`, or the rollback of that learner. */
  method LinkLearner(db: Database, before: Table<User>, id: Id, learner: User, tutor: Caller, now: nat) returns (r: Outcome)
    requires db.Valid() && db.users == before + [Row(id, learner)]
    requires db.nextId == id + 1 && WellKeyed(before, id) && EmailsUnique(before)
    modifies db`users, db`collaborations, db`nextId
    ensures db.Valid()
    ensures tutor.id in Ids(before) ==>
      && r == Done && db.users == old(db.users)
      && db.collaborations == old(db.collaborations) +
           [Row(id + 1, Collaboration(id, tutor.id, CollaborationStatus.ACTIVE, now))]
      && db.nextId == id + 2
    ensures tutor.id !in Ids(before) && tutor.id != id ==>
      r.Failed? && db.users == before && db.collaborations == old(db.collaborations)
    ensures tutor.id == id ==>
      r == Done && db.users == old(db.users) && db.collaborations == old(db.collaborations) && db.nextId == id + 1
  {
    AppendFresh(before, id, learner);
    var link := CollaborationInput(Some(id), Some(tutor.id), CollaborationStatus.ACTIVE);
    assert tutor.id in Ids(before) ==> tutor.id < id && Inserts(link) && tutor.id in Ids(db.users);
    assert tutor.id !in Ids(before) && tutor.id != id ==> Inserts(link) && tutor.id !in Ids(db.users);
    r := AddNewCollaboration(db, link, now);
    if r.Failed? {
      // the transaction rolls back the new learner
      BelowGrows(before, id, db.nextId);
      db.RollbackUsers(before);
    }
  }

  /** The collaboration createLearner stores is the one findCollaboration
      finds for the new learner and its tutor. */
  lemma NewLearnerLinked(t: Table<Collaboration>, next: Id, tutorId: Id, now: nat)
    requires forall row :: row in t ==> row.val.learnerId < next
    ensures var link := Row(next + 1, Collaboration(next, tutorId, CollaborationStatus.ACTIVE, now));
      FindCollaboration(t + [link], next, tutorId) == Some(link)
  {
    var link := Row(next + 1, Collaboration(next, tutorId, CollaborationStatus.ACTIVE, now));
    FindWhereAppend(t, link, (c: Collaboration) => c.learnerId == next && c.tutorId == tutorId);
  }

  /** The message the catch of updatePassword puts on every error but Forbidden. */
  const PasswordFailure: Error := BadRequest("Something went wrong when changing password")

  /** The status a password change leaves: INACTIVE becomes ACTIVE. */
  function StatusAfterPasswordChange(s: UserStatus): (r: UserStatus)
    ensures s == UserStatus.INACTIVE ==> r == UserStatus.ACTIVE
    ensures s != UserStatus.INACTIVE ==> r == s
  {
    if s == UserStatus.INACTIVE then UserStatus.ACTIVE else s
  }

  /** updatePassword as written, on the stored user: the new record or the
      error the caller receives. A missing user or old password fails inside
      the try and, like the same-password refusal, reaches the caller as the
      generic message. */
  function PasswordChange(user: Option<User>, dto: UpdatePasswordDto): (r: Result<User>)
    ensures r.Ok? <==> (user.Some? && dto.oldPassword.Some? && Verify(user.value.password, dto.oldPassword.value)
      && dto.newPassword != dto.oldPassword.value)
    ensures r.Ok? ==> r.value == user.value.(password := Hash(dto.newPassword), status := StatusAfterPasswordChange(user.value.status))
    ensures r.Err? ==> r.error == Forbidden("Old password is incorrect") || r.error == PasswordFailure
    ensures r == Err(Forbidden("Old password is incorrect")) <==>
      user.Some? && dto.oldPassword.Some? && !Verify(user.value.password, dto.oldPassword.value)
  {
    if user.None? || dto.oldPassword.None? then Err(PasswordFailure)
    else if !Verify(user.value.password, dto.oldPassword.value) then Err(Forbidden("Old password is incorrect"))
    else if dto.newPassword == dto.oldPassword.value then Err(PasswordFailure)
    else Ok(user.value.(password := Hash(dto.newPassword), status := StatusAfterPasswordChange(user.value.status)))
  }

  /** updatePassword as evidently intended: the same-password refusal
      reaches the caller with its own message. */
  function PasswordChangeIntended(user: Option<User>, dto: UpdatePasswordDto): (r: Result<User>)
    ensures r == Err(BadRequest("New password cannot be the same as the old password")) <==>
      user.Some? && dto.oldPassword.Some? && Verify(user.value.password, dto.oldPassword.value)
      && dto.newPassword == dto.oldPassword.value
    ensures r.Ok? <==> PasswordChange(user, dto).Ok?
    ensures r.Ok? ==> r == PasswordChange(user, dto)
  {
    if user.Some? && dto.oldPassword.Some? && Verify(user.value.password, dto.oldPassword.value)
      && dto.newPassword == dto.oldPassword.value
    then Err(BadRequest("New password cannot be the same as the old password"))
    else PasswordChange(user, dto)
  }

  /** The input that shows the two apart: repeating the current password. */
  lemma SamePasswordMessageLost(u: User, p: string)
    requires u.password == Hash(p)
    ensures PasswordChange(Some(u), UpdatePasswordDto(Some(p), p)) == Err(PasswordFailure)
    ensures PasswordChangeIntended(Some(u), UpdatePasswordDto(Some(p), p)) ==
      Err(BadRequest("New password cannot be the same as the old password"))
  {
  }

  /** After a password change the new password verifies and the old one no
      longer does. */
  lemma NewPasswordVerifies(user: User, dto: UpdatePasswordDto)
    requires PasswordChange(Some(user), dto).Ok?
    ensures Verify(PasswordChange(Some(user), dto).value.password, dto.newPassword)
    ensures !Verify(PasswordChange(Some(user), dto).value.password, dto.oldPassword.value)
  {
    VerifyHash(dto.newPassword, dto.oldPassword.value);
  }

  /** updatePassword: writes the new hash and status of the user `id`. */
  method UpdatePassword(db: Database, dto: UpdatePasswordDto, id: Id, mailOk: bool) returns (r: Result<PasswordUpdated>)
    requires db.Valid()
    modifies db`users
    ensures db.Valid()
    ensures PasswordChange(Find(old(db.users), id), dto).Err? ==>
      r == Err(PasswordChange(Find(old(db.users), id), dto).error) && db.users == old(db.users)
    ensures PasswordChange(Find(old(db.users), id), dto).Ok? ==>
      && r == Ok(PasswordUpdated(Public(id, PasswordChange(Find(old(db.users), id), dto).value), mailOk))
      && db.users == Replace(old(db.users), id, PasswordChange(Find(old(db.users), id), dto).value)
  {
    var change := PasswordChange(Find(db.users, id), dto);
    if change.Err? {
      return Err(change.error);
    }
    var user := Find(db.users, id).value;
    assert !EmailTakenByOther(db.users, change.value.email, id) by {
      assert Row(id, user) in db.users;
    }
    db.ReplaceUser(id, change.value);
    r := Ok(PasswordUpdated(Public(id, change.value), mailOk));
  }

  /** The fields of an update that are not undefined. */
  predicate HasFields(dto: UpdateUserDto)
  {
    dto.name.Some? || dto.lastName.Some? || dto.companyName.Some? || dto.email.Some?
  }

  /** The user record after an update: the defined fields replace the stored
      ones, and password, role and status are never written. */
  function UserUpdated(u: User, dto: UpdateUserDto): (r: User)
    ensures r.password == u.password && r.roleId == u.roleId && r.status == u.status
    ensures r.name == (if dto.name.Some? then dto.name.value else u.name)
    ensures r.lastName == (if dto.lastName.Some? then dto.lastName.value else u.lastName)
    ensures r.companyName == (if dto.companyName.Some? then dto.companyName else u.companyName)
    ensures r.email == (if dto.email.Some? then dto.email.value else u.email)
  {
    u.(name := if dto.name.Some? then dto.name.value else u.name,
       lastName := if dto.lastName.Some? then dto.lastName.value else u.lastName,
       companyName := if dto.companyName.Some? then dto.companyName else u.companyName,
       email := if dto.email.Some? then dto.email.value else u.email)
  }

  /** Applying the same update twice is applying it once. */
  lemma UserUpdatedIdempotent(u: User, dto: UpdateUserDto)
    ensures UserUpdated(UserUpdated(u, dto), dto) == UserUpdated(u, dto)
  {
  }

  function Info(id: Id, u: User): UserInfo
  {
    UserInfo(id, u.name, u.lastName, u.email, u.companyName, u.status)
  }

  /** The error updateUserInfo throws for a failure `e` as written: the test
      `error instanceof BadRequestException || NotFoundException` is always
      true, so every error is rethrown unchanged. */
  function UserInfoError(e: Error): (r: Error)
    ensures r == e
  {
    e
  }

  /** The same catch as evidently intended: only BadRequest and NotFound pass
      through, anything else becomes a generic BadRequest. */
  function UserInfoErrorIntended(e: Error): (r: Error)
    ensures r.BadRequest? || r.NotFound?
    ensures e.BadRequest? || e.NotFound? ==> r == e
    ensures !(e.BadRequest? || e.NotFound?) ==> r == BadRequest("Something went wrong")
  {
    if e.BadRequest? || e.NotFound? then e else BadRequest("Something went wrong")
  }

  /** The input that shows the two apart: an email another user holds. */
  lemma DuplicateEmailLeaksRaw()
    ensures UserInfoError(UniqueViolation) == UniqueViolation
    ensures UserInfoErrorIntended(UniqueViolation) == BadRequest("Something went wrong")
  {
  }

  /** updateUserInfo: writes the defined profile fields of user `id`. */
  method UpdateUserInfo(db: Database, id: Id, dto: UpdateUserDto, mailOk: bool) returns (r: Result<UserInfoUpdated>)
    requires db.Valid()
    modifies db`users
    ensures db.Valid()
    ensures Find(old(db.users), id).None? ==>
      r == Err(UserInfoError(NotFound("User not found"))) && db.users == old(db.users)
    ensures Find(old(db.users), id).Some? && !HasFields(dto) ==>
      r == Err(UserInfoError(BadRequest("No valid fields to update"))) && db.users == old(db.users)
    ensures Find(old(db.users), id).Some? && HasFields(dto) && EmailTakenByOther(old(db.users), UserUpdated(Find(old(db.users), id).value, dto).email, id) ==>
      r == Err(UserInfoError(UniqueViolation)) && db.users == old(db.users)
    ensures Find(old(db.users), id).Some? && HasFields(dto) && !EmailTakenByOther(old(db.users), UserUpdated(Find(old(db.users), id).value, dto).email, id) ==>
      && r == Ok(UserInfoUpdated(Info(id, UserUpdated(Find(old(db.users), id).value, dto)), mailOk))
      && db.users == Replace(old(db.users), id, UserUpdated(Find(old(db.users), id).value, dto))
  {
    var current := Find(db.users, id);
    if current.None? {
      return Err(UserInfoError(NotFound("User not found")));
    }
    if !HasFields(dto) {
      return Err(UserInfoError(BadRequest("No valid fields to update")));
    }
    var updated := UserUpdated(current.value, dto);
    if EmailTakenByOther(db.users, updated.email, id) {
      return Err(UserInfoError(UniqueViolation));
    }
    db.ReplaceUser(id, updated);
    r := Ok(UserInfoUpdated(Info(id, updated), mailOk));
  }

  /** The role check of deleteUserAccount and its helpers: Done when the
      caller may delete account `id`, else the refusal. */
  function DeleteAccountDecision(t: Table<Collaboration>, id: Id, user: Caller): (r: Outcome)
    ensures r == Done <==>
      || (user.role == "LEARNER" && id == user.id)
      || (user.role == "TUTOR" && (id == user.id || exists row :: row in t && row.val.learnerId == id && row.val.tutorId == user.id))
      || (user.role == "ADMIN" && id != user.id)
    ensures user.role == "TUTOR" && r != Done ==>
      r == Failed(NotFound("User does not exist or is not associated with this tutor"))
    ensures user.role != "TUTOR" && r != Done ==> r.Failed? && r.error.Forbidden?
  {
    match user.role
    case "LEARNER" =>
      if id != user.id then Failed(Forbidden("You are not allowed to perform this action")) else Done
    case "TUTOR" =>
      if id != user.id && FindCollaboration(t, id, user.id).None? then
        Failed(NotFound("User does not exist or is not associated with this tutor"))
      else Done
    case "ADMIN" =>
      if id == user.id then Failed(Forbidden("Admin can not delete himself")) else Done
    case _ => Failed(Forbidden("Your role is not defined"))
  }

  /** deleteUserAccount: deletes the account when the caller's role allows
      it; deleting a user that does not exist fails. */
  method DeleteUserAccount(db: Database, id: Id, user: Caller) returns (r: Outcome)
    requires db.Valid()
    modifies db`users
    ensures db.Valid()
    ensures DeleteAccountDecision(db.collaborations, id, user).Failed? ==>
      r == DeleteAccountDecision(db.collaborations, id, user) && db.users == old(db.users)
    ensures DeleteAccountDecision(db.collaborations, id, user) == Done && id !in Ids(old(db.users)) ==>
      r == Failed(BadRequest("Unable to delete the user account")) && db.users == old(db.users)
    ensures DeleteAccountDecision(db.collaborations, id, user) == Done && id in Ids(old(db.users)) ==>
      r == Done && db.users == Delete(old(db.users), id)
  {
    var decision := DeleteAccountDecision(db.collaborations, id, user);
    if decision.Failed? {
      return decision;
    }
    if id !in Ids(db.users) {
      // the delete fails with Prisma's record-not-found error, which is replaced
      return Failed(BadRequest("Unable to delete the user account"));
    }
    DeleteWellKeyed(db.users, id, db.nextId);
    db.users := Delete(db.users, id);
    r := Done;
  }

  /** The status the admin's switch writes: ACTIVE becomes SUSPENDED and
      every other status ACTIVE. */
  function SuspensionToggled(s: UserStatus): (r: UserStatus)
    ensures r == UserStatus.SUSPENDED <==> s == UserStatus.ACTIVE
    ensures r == UserStatus.ACTIVE <==> s != UserStatus.ACTIVE
  {
    if s == UserStatus.ACTIVE then UserStatus.SUSPENDED else UserStatus.ACTIVE
  }

  /** Switching twice restores ACTIVE and SUSPENDED, but turns INACTIVE into SUSPENDED. */
  lemma SuspensionToggledTwice(s: UserStatus)
    ensures SuspensionToggled(SuspensionToggled(s)) == if s == UserStatus.INACTIVE then UserStatus.SUSPENDED else s
  {
  }

  function SuspensionMessage(newStatus: UserStatus): (m: string)
    ensures newStatus == UserStatus.ACTIVE ==> m == "User unsuspended successfully"
    ensures newStatus != UserStatus.ACTIVE ==> m == "User suspended successfully"
  {
    "User " + (if newStatus == UserStatus.ACTIVE then "unsuspended" else "suspended") + " successfully"
  }

  /** toggleUserSuspension: flips the suspension of another user; only its
      status changes. */
  method ToggleUserSuspension(db: Database, userToToggleId: Id, admin: Caller) returns (r: Result<Suspension>)
    requires db.Valid()
    modifies db`users
    ensures db.Valid()
    ensures userToToggleId == admin.id ==>
      r == Err(BadRequest("Administrators cannot suspend/unsuspend themselves")) && db.users == old(db.users)
    ensures userToToggleId != admin.id && Find(old(db.users), userToToggleId).None? ==>
      r == Err(NotFound("User not found")) && db.users == old(db.users)
    ensures userToToggleId != admin.id && Find(old(db.users), userToToggleId).Some? ==>
      var u := Find(old(db.users), userToToggleId).value;
      var s := SuspensionToggled(u.status);
      && db.users == Replace(old(db.users), userToToggleId, u.(status := s))
      && r == Ok(Suspension(ToggledUser(userToToggleId, u.name, u.lastName, u.email, s), SuspensionMessage(s)))
  {
    if userToToggleId == admin.id {
      return Err(BadRequest("Administrators cannot suspend/unsuspend themselves"));
    }
    var found := Find(db.users, userToToggleId);
    if found.None? {
      return Err(NotFound("User not found"));
    }
    var u := found.value;
    var s := SuspensionToggled(u.status);
    assert !EmailTakenByOther(db.users, u.email, userToToggleId) by {
      assert Row(userToToggleId, u) in db.users;
    }
    db.ReplaceUser(userToToggleId, u.(status := s));
    r := Ok(Suspension(ToggledUser(userToToggleId, u.name, u.lastName, u.email, s), SuspensionMessage(s)));
  }

  /** The users getAllUsers lists: tutors and learners. */
  predicate Listed(u: User)
  {
    u.roleId == 2 || u.roleId == 3
  }

  function Listing(u: User): UserListing
  {
    UserListing(u.name, u.lastName, u.email, u.status, GetRolename(u.roleId))
  }

  /** getAllUsers: every tutor and learner, in table order, never an admin. */
  function GetAllUsers(users: Table<User>): (r: seq<UserListing>)
    ensures |r| <= |users|
    ensures forall row :: row in users && Listed(row.val) ==> Listing(row.val) in r
    ensures forall x :: x in r ==> exists row :: row in users && Listed(row.val) && x == Listing(row.val)
    ensures forall x :: x in r ==> x.role == "TUTOR" || x.role == "LEARNER"
  {
    if |users| == 0 then []
    else
      assert forall row :: row in users <==> row == users[0] || row in users[1..];
      (if Listed(users[0].val) then [Listing(users[0].val)] else []) + GetAllUsers(users[1..])
  }
}
