/** The authentication service: tutor registration, the login decision and
    the content of the signed token. */
module AuthService {
  import opened Common
  import opened Tables
  import opened Entities
  import opened Store
  import opened Credentials

  datatype RegisterDto = RegisterDto(name: string, lastName: string, email: string, password: string, companyName: string)

  datatype LoginDto = LoginDto(email: string, password: string)

  /** The claims of the JWT. */
  datatype Payload = Payload(sub: Id, email: string, status: UserStatus, companyName: Option<string>, role: string)

  /** A signed token: its claims and lifetime (the signature is not modelled). */
  datatype Token = Token(payload: Payload, expiresIn: string)

  /** The user part of a login response: no id, no password. */
  datatype UserSummary = UserSummary(
    name: string,
    lastName: string,
    email: string,
    companyName: Option<string>,
    status: UserStatus,
    role: string)

  datatype SignedIn = SignedIn(token: Token, user: UserSummary)

  /** What register returns: the stored user without its password, and
      whether the confirmation mail went out. */
  datatype Registration = Registration(user: PublicUser, emailSent: bool)

  /** The role name the seeded role table gives a role id. */
  function GetRolename(roleId: int): (r: string)
    ensures r == "ADMIN" <==> roleId == 1
    ensures r == "TUTOR" <==> roleId == 2
    ensures r == "LEARNER" <==> roleId != 1 && roleId != 2
  {
    match roleId
    case 1 => "ADMIN"
    case 2 => "TUTOR"
    case _ => "LEARNER"
  }

  /** signToken: the claims and the user summary describe the same user. */
  function SignToken(id: Id, u: User): (r: SignedIn)
    ensures r.token.expiresIn == "12h"
    ensures r.token.payload.sub == id
    ensures r.token.payload.role == r.user.role == GetRolename(u.roleId)
    ensures r.token.payload.email == r.user.email == u.email
    ensures r.token.payload.status == r.user.status == u.status
    ensures r.token.payload.companyName == r.user.companyName == u.companyName
    ensures r.user.name == u.name && r.user.lastName == u.lastName
  {
    var role := GetRolename(u.roleId);
    SignedIn(
      Token(Payload(id, u.email, u.status, u.companyName, role), "12h"),
      UserSummary(u.name, u.lastName, u.email, u.companyName, u.status, role))
  }

  /** findUnique by the unique email column. */
  function FindUserByEmail(users: Table<User>, email: string): (r: Option<Row<User>>)
    ensures r.Some? ==> r.value in users && r.value.val.email == email
    ensures r.None? <==> !EmailTaken(users, email)
  {
    FindWhere(users, (u: User) => u.email == email)
  }

  /** login: unknown email, then wrong password, then suspension, then a token. */
  function Login(users: Table<User>, dto: LoginDto): (r: Result<SignedIn>)
    ensures !EmailTaken(users, dto.email) ==> r == Err(Unauthorized("Credentials incorrect"))
    ensures r.Ok? ==> exists row :: (row in users && row.val.email == dto.email
      && Verify(row.val.password, dto.password) && row.val.status != SUSPENDED
      && r.value == SignToken(row.id, row.val))
    ensures r.Err? ==> r.error == Unauthorized("Credentials incorrect") || r.error == Unauthorized("Your account has been suspended")
  {
    var found := FindUserByEmail(users, dto.email);
    if found.None? then Err(Unauthorized("Credentials incorrect"))
    else if !Verify(found.value.val.password, dto.password) then Err(Unauthorized("Credentials incorrect"))
    else if found.value.val.status == SUSPENDED then Err(Unauthorized("Your account has been suspended"))
    else Ok(SignToken(found.value.id, found.value.val))
  }

  /** With unique emails the account holding the email decides the outcome:
      a wrong password is refused whatever the status, a suspended account
      with the right password gets no token, any other account gets one. */
  lemma LoginDecision(users: Table<User>, row: Row<User>, password: string)
    requires EmailsUnique(users) && row in users
    ensures !Verify(row.val.password, password) ==>
      Login(users, LoginDto(row.val.email, password)) == Err(Unauthorized("Credentials incorrect"))
    ensures Verify(row.val.password, password) && row.val.status == SUSPENDED ==>
      Login(users, LoginDto(row.val.email, password)) == Err(Unauthorized("Your account has been suspended"))
    ensures Verify(row.val.password, password) && row.val.status != SUSPENDED ==>
      Login(users, LoginDto(row.val.email, password)) == Ok(SignToken(row.id, row.val))
  {
    assert EmailTaken(users, row.val.email);
    var found := FindUserByEmail(users, row.val.email);
    assert found.value == row;
  }

  /** The user register stores. */
  function NewTutor(dto: RegisterDto): (u: User)
    ensures u.roleId == 2 && u.status == UserStatus.ACTIVE
    ensures Verify(u.password, dto.password)
  {
    User(dto.name, dto.lastName, dto.email, Hash(dto.password), Some(dto.companyName), 2, UserStatus.ACTIVE)
  }

  /** How register (and createTutor) reports a failed insert. */
  function RegisterError(e: Error): (r: Error)
    ensures e == UniqueViolation ==> r == Forbidden("Email already in use")
    ensures e != UniqueViolation && e.Thrown? && e.name == "PrismaClientKnownRequestError" ==>
      r == Failure("Unable to register the new user")
    ensures !(e.Thrown? && e.name == "PrismaClientKnownRequestError") ==> r == e
  {
    if e.Thrown? && e.name == "PrismaClientKnownRequestError" then
      if e.message == "P2002" then Forbidden("Email already in use") else Failure("Unable to register the new user")
    else e
  }

  /** register: stores an ACTIVE tutor under a fresh key; `mailOk` is whether
      the confirmation mail could be sent, which never fails the call. */
  method Register(db: Database, dto: RegisterDto, mailOk: bool) returns (r: Result<Registration>)
    requires db.Valid()
    modifies db`users, db`nextId
    ensures db.Valid()
    ensures old(EmailTaken(db.users, dto.email)) ==> r == Err(Forbidden("Email already in use")) && unchanged(db)
    ensures !old(EmailTaken(db.users, dto.email)) ==>
      && r == Ok(Registration(Public(old(db.nextId), NewTutor(dto)), mailOk))
      && db.users == old(db.users) + [Row(old(db.nextId), NewTutor(dto))]
      && db.nextId == old(db.nextId) + 1
  {
    var created := db.CreateUser(NewTutor(dto));
    if created.Err? {
      return Err(RegisterError(created.error));
    }
    r := Ok(Registration(Public(created.value, NewTutor(dto)), mailOk));
  }

  /** Registering and then logging in with the same credentials yields a
      TUTOR token for the new account. */
  lemma LoginAfterRegister(users: Table<User>, next: Id, dto: RegisterDto)
    requires EmailsUnique(users) && !EmailTaken(users, dto.email)
    ensures Login(users + [Row(next, NewTutor(dto))], LoginDto(dto.email, dto.password)) == Ok(SignToken(next, NewTutor(dto)))
    ensures SignToken(next, NewTutor(dto)).token.payload.role == "TUTOR"
  {
    var row := Row(next, NewTutor(dto));
    var after := users + [row];
    assert forall r :: r in after <==> r in users || r == row;
    assert EmailsUnique(after);
    VerifyHash(dto.password, dto.password);
    LoginDecision(after, row, dto.password);
  }
}
