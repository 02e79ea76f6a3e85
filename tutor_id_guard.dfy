/** The tutor-id guard: only a caller whose role is exactly 'TUTOR' passes,
    and its id is written onto the request for the handler. */
module TutorIdGuard {
  import opened Common
  import opened Entities
  import CommonRoleGuard

  /** The fields of the HTTP request the guard reads and writes. */
  class Request {
    var user: Option<Caller>
    var tutorId: Option<Id>

    constructor (user: Option<Caller>)
      ensures this.user == user && tutorId == None
    {
      this.user := user;
      tutorId := None;
    }
  }

  /** The guard's decision: the tutor id to record, or the refusal. */
  function Decide(user: Option<Caller>): (r: Result<Id>)
    ensures user.None? ==> r == Err(Unauthorized("User not authenticated"))
    ensures r.Ok? <==> user.Some? && user.value.role == "TUTOR"
    ensures r.Ok? ==> r.value == user.value.id
    ensures user.Some? && user.value.role != "TUTOR" ==> r == Err(Forbidden("Access denied. Only tutors are allowed."))
  {
    if user.None? then Err(Unauthorized("User not authenticated"))
    else if user.value.role == "TUTOR" then Ok(user.value.id)
    else Err(Forbidden("Access denied. Only tutors are allowed."))
  }

  /** canActivate: on success sets `request.tutorId`; on refusal leaves the
      request as it was. */
  method CanActivate(request: Request) returns (r: Result<bool>)
    modifies request`tutorId
    ensures Decide(request.user).Ok? ==> r == Ok(true) && request.tutorId == Some(Decide(request.user).value)
    ensures Decide(request.user).Err? ==> r == Err(Decide(request.user).error) && request.tutorId == old(request.tutorId)
  {
    var user := request.user;
    if user.None? {
      return Err(Unauthorized("User not authenticated"));
    }
    if user.value.role == "TUTOR" {
      request.tutorId := Some(user.value.id);
      return Ok(true);
    }
    return Err(Forbidden("Access denied. Only tutors are allowed."));
  }

  /** Stricter than the role guard: whoever passes here passes the role guard
      for 'tutor', but a caller whose role is 'tutor' in lower case passes the
      role guard and is refused here. */
  lemma StricterThanRoleGuard(user: Caller)
    ensures Decide(Some(user)).Ok? ==> CommonRoleGuard.CanActivate(Some(["tutor"]), user) == Ok(true)
    ensures user.role == "tutor" ==>
      CommonRoleGuard.CanActivate(Some(["tutor"]), user) == Ok(true) && Decide(Some(user)).Err?
  {
    var lower, upper := "tutor", "TUTOR";
    assert CommonRoleGuard.Upper(lower) == upper by {
      assert CommonRoleGuard.Upper(lower)[0] == 'T';
      assert CommonRoleGuard.Upper(lower)[1] == 'U';
      assert CommonRoleGuard.Upper(lower)[2] == 'T';
      assert CommonRoleGuard.Upper(lower)[3] == 'O';
      assert CommonRoleGuard.Upper(lower)[4] == 'R';
    }
    assert CommonRoleGuard.Upper(upper) == upper by {
      assert CommonRoleGuard.Upper(upper)[0] == 'T';
      assert CommonRoleGuard.Upper(upper)[1] == 'U';
      assert CommonRoleGuard.Upper(upper)[2] == 'T';
      assert CommonRoleGuard.Upper(upper)[3] == 'O';
      assert CommonRoleGuard.Upper(upper)[4] == 'R';
    }
    assert "tutor" in ["tutor"];
  }
}
