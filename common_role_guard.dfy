/** The role guard of the common guards: a route's required role names are
    matched against the caller's role name without regard to case. */
module CommonRoleGuard {
  import opened Common
  import opened Entities

  function UpperChar(c: char): (r: char)
    ensures 'a' <= c <= 'z' ==> r as int == c as int - 32
    ensures !('a' <= c <= 'z') ==> r == c
  {
    if 'a' <= c <= 'z' then (c as int - 32) as char else c
  }

  /** `toUpperCase` on ASCII text. */
  function Upper(s: string): (r: string)
    ensures |r| == |s|
    ensures forall i :: 0 <= i < |s| ==> r[i] == UpperChar(s[i])
  {
    seq(|s|, i requires 0 <= i < |s| => UpperChar(s[i]))
  }

  /** The `some` of canActivate: whether one of `roles` names `role`, ignoring case. */
  function AnyRoleMatches(roles: seq<string>, role: string): (r: bool)
    ensures r <==> exists i :: 0 <= i < |roles| && Upper(roles[i]) == Upper(role)
  {
    if |roles| == 0 then false
    else if Upper(role) == Upper(roles[0]) then true
    else
      var r := AnyRoleMatches(roles[1..], role);
      assert r <==> exists i :: 1 <= i < |roles| && Upper(roles[i]) == Upper(role) by {
        if r {
          var j :| 0 <= j < |roles[1..]| && Upper(roles[1..][j]) == Upper(role);
          assert Upper(roles[j + 1]) == Upper(role);
        }
        if exists i :: 1 <= i < |roles| && Upper(roles[i]) == Upper(role) {
          var i :| 1 <= i < |roles| && Upper(roles[i]) == Upper(role);
          assert roles[1..][i - 1] == roles[i];
        }
      }
      r
  }

  /** canActivate: `requiredRoles` is the route's `roles` metadata, None when
      the route declares none. */
  function CanActivate(requiredRoles: Option<seq<string>>, user: Caller): (r: Result<bool>)
    ensures requiredRoles.None? ==> r == Ok(true)
    ensures requiredRoles.Some? ==>
      (r == Ok(true) <==> exists role :: role in requiredRoles.value && Upper(role) == Upper(user.role))
    ensures r != Ok(true) ==> r == Err(Forbidden("You are not authorized to perform this action"))
  {
    if requiredRoles.None? then Ok(true)
    else if AnyRoleMatches(requiredRoles.value, user.role) then Ok(true)
    else Err(Forbidden("You are not authorized to perform this action"))
  }

  /** Upper-casing twice is upper-casing once. */
  lemma UpperIdempotent(s: string)
    ensures Upper(Upper(s)) == Upper(s)
  {
    assert forall i :: 0 <= i < |s| ==> Upper(Upper(s))[i] == Upper(s)[i];
  }

  /** Requiring more roles never turns an admitted caller away. */
  lemma MoreRolesNeverDeny(fewer: seq<string>, more: seq<string>, user: Caller)
    requires forall role :: role in fewer ==> role in more
    ensures CanActivate(Some(fewer), user) == Ok(true) ==> CanActivate(Some(more), user) == Ok(true)
  {
  }

  /** Two callers whose role names differ only in case are treated alike. */
  lemma CaseIgnored(roles: Option<seq<string>>, user: Caller, role: string)
    requires Upper(role) == Upper(user.role)
    ensures CanActivate(roles, user.(role := role)) == CanActivate(roles, user)
  {
  }

  /** An empty `roles` list admits nobody (an empty array is truthy). */
  lemma EmptyRolesDeny(user: Caller)
    ensures CanActivate(Some([]), user) == Err(Forbidden("You are not authorized to perform this action"))
  {
  }
}
