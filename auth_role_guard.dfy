/** The role guard of the auth guards: the names 'tutor' and 'admin' are
    matched against boolean flags of the request's user. */
module AuthRoleGuard {
  import opened Common

  /** The flags this guard reads from the request's user; a flag the user
      object lacks is false. */
  datatype FlaggedUser = FlaggedUser(isTutor: bool, isAdmin: bool)

  /** The switch inside the guard's `some`. */
  function Satisfies(role: string, user: FlaggedUser): (r: bool)
    ensures r <==> (role == "tutor" && user.isTutor) || (role == "admin" && user.isAdmin)
  {
    match role
    case "tutor" => user.isTutor
    case "admin" => user.isAdmin
    case _ => false
  }

  function AnySatisfied(roles: seq<string>, user: FlaggedUser): (r: bool)
    ensures r <==> exists i :: 0 <= i < |roles| && Satisfies(roles[i], user)
  {
    if |roles| == 0 then false
    else if Satisfies(roles[0], user) then true
    else
      var r := AnySatisfied(roles[1..], user);
      assert r <==> exists i :: 1 <= i < |roles| && Satisfies(roles[i], user) by {
        if r {
          var j :| 0 <= j < |roles[1..]| && Satisfies(roles[1..][j], user);
          assert roles[j + 1] == roles[1..][j];
        }
        if exists i :: 1 <= i < |roles| && Satisfies(roles[i], user) {
          var i :| 1 <= i < |roles| && Satisfies(roles[i], user);
          assert roles[1..][i - 1] == roles[i];
        }
      }
      r
  }

  /** canActivate with the route's `roles` metadata, None when there is none. */
  function CanActivate(requiredRoles: Option<seq<string>>, user: FlaggedUser): (r: Result<bool>)
    ensures requiredRoles.None? ==> r == Ok(true)
    ensures requiredRoles.Some? ==>
      (r == Ok(true) <==>
        ("tutor" in requiredRoles.value && user.isTutor) || ("admin" in requiredRoles.value && user.isAdmin))
    ensures r != Ok(true) ==> r == Err(Forbidden("You are not authorized to perform this action"))
  {
    if requiredRoles.None? then Ok(true)
    else if AnySatisfied(requiredRoles.value, user) then Ok(true)
    else Err(Forbidden("You are not authorized to perform this action"))
  }

  /** Role names other than 'tutor' and 'admin' (upper-case ones included)
      never admit anybody. */
  lemma OtherNamesNeverAdmit(roles: seq<string>, user: FlaggedUser)
    requires "tutor" !in roles && "admin" !in roles
    ensures CanActivate(Some(roles), user).Err?
  {
  }

  /** A user without either flag is refused on every route that declares roles. */
  lemma FlaglessUserRefused(roles: seq<string>)
    ensures CanActivate(Some(roles), FlaggedUser(false, false)).Err?
  {
  }
}
