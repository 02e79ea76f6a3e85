/** The status guard of the common guards: a suspended caller is refused
    with an exception. */
module CommonStatusGuard {
  import opened Common
  import opened Entities

  /** canActivate: reads only the caller's status. */
  function CanActivate(user: Caller): (r: Result<bool>)
    ensures r.Err? <==> user.status == SUSPENDED
    ensures r.Err? ==> r.error == Forbidden("Your account has been suspend")
    ensures r.Ok? ==> r.value
  {
    if user.status == SUSPENDED then Err(Forbidden("Your account has been suspend")) else Ok(true)
  }

  /** Inactive callers pass: only suspension is checked. */
  lemma InactivePasses(user: Caller)
    requires user.status == UserStatus.INACTIVE
    ensures CanActivate(user) == Ok(true)
  {
  }
}
