/** The status guard of the auth guards: a suspended caller is refused by
    returning false. */
module AuthStatusGuard {
  import opened Common
  import opened Entities
  import CommonStatusGuard

  /** canActivate: reads only the caller's status and never throws. */
  function CanActivate(user: Caller): (r: bool)
    ensures r <==> user.status != SUSPENDED
  {
    if user.status == SUSPENDED then false else true
  }

  /** Both status guards admit exactly the same callers; they differ only in
      how they refuse. */
  lemma AgreesWithCommonStatusGuard(user: Caller)
    ensures CanActivate(user) <==> CommonStatusGuard.CanActivate(user) == Ok(true)
    ensures !CanActivate(user) <==> CommonStatusGuard.CanActivate(user).Err?
  {
  }
}
