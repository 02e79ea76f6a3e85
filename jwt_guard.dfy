/** The JWT guard's `handleRequest`: turns passport's verdict into the user
    or an exception. */
module JwtGuard {
  import opened Common

  /** `err` is what the JWT strategy reported, if anything; `user` is None
      when it produced no user. */
  function HandleRequest<U>(err: Option<Error>, user: Option<U>): (r: Result<U>)
    ensures r.Ok? <==> err.None? && user.Some?
    ensures r.Ok? ==> r.value == user.value
    ensures err.Some? && ErrorName(err.value) == "TokenExpiredError" ==>
      r == Err(Unauthorized("Your session has expired. Please login again."))
    ensures err.Some? && ErrorName(err.value) != "TokenExpiredError" ==> r == Err(err.value)
    ensures err.None? && user.None? ==> r == Err(Unauthorized("Session not validated. Please login"))
  {
    if err.Some? || user.None? then
      if err.Some? && ErrorName(err.value) == "TokenExpiredError" then
        Err(Unauthorized("Your session has expired. Please login again."))
      else if err.Some? then Err(err.value)
      else Err(Unauthorized("Session not validated. Please login"))
    else Ok(user.value)
  }

  /** An error decides the outcome whatever user came with it. */
  lemma ErrorTakesPrecedence<U>(err: Error, a: Option<U>, b: Option<U>)
    ensures HandleRequest(Some(err), a) == HandleRequest(Some(err), b)
    ensures HandleRequest(Some(err), a).Err?
  {
  }
}
