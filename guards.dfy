/** The two route guards: `RolesGuard`, driven by the `@Roles()` metadata of
    the handler, and `AdminGuard`, which admits administrators only. */
module Guards {
  import opened Common

  /** `request.user` as the JWT strategy fills it in from the token's claims. */
  datatype RequestUser = RequestUser(id: string, email: string, isAdmin: bool)

  /** The one role name the roles guard interprets. */
  const AdminRole: string := "admin"

  /** `RolesGuard.canActivate`, with its early returns in source order:
      no roles required, no user, 'admin' required, any other role. */
  function RolesCanActivate(roles: Option<seq<string>>, user: Option<RequestUser>): (allow: bool)
    ensures roles.None? || roles.value == [] ==> allow
    ensures roles.Some? && roles.value != [] && user.None? ==> !allow
    ensures allow <==> (roles.Some? && roles.value != [] ==>
                          user.Some? && (AdminRole in roles.value ==> user.value.isAdmin))
  {
    if roles.None? || |roles.value| == 0 then true
    else if user.None? then false
    else if AdminRole in roles.value then user.value.isAdmin
    else true
  }

  /** `AdminGuard.canActivate`: true for an administrator, ForbiddenException
      otherwise; it never answers false. */
  function AdminCanActivate(user: Option<RequestUser>): (r: Result<bool>)
    ensures r != Ok(false)
    ensures r == Ok(true) <==> user.Some? && user.value.isAdmin
    ensures r.Err? ==> r.error == Forbidden
  {
    if user.None? || !user.value.isAdmin then Err(Forbidden) else Ok(true)
  }

  /** The admin guard admits exactly the requests the roles guard admits for a
      handler marked `@Roles('admin')`; they differ only in how they refuse. */
  lemma AdminGuardMatchesAdminRole(user: Option<RequestUser>)
    ensures AdminCanActivate(user) == Ok(true) <==> RolesCanActivate(Some([AdminRole]), user)
    ensures !RolesCanActivate(Some([AdminRole]), user) ==> AdminCanActivate(user) == Err(Forbidden)
  {
    assert AdminRole in [AdminRole];
  }

  /** Extra role names beside 'admin' change nothing, and without 'admin'
      the roles themselves are never checked: only authentication counts. */
  lemma OnlyAdminRoleMatters(roles: seq<string>, user: Option<RequestUser>)
    requires roles != []
    ensures AdminRole in roles ==> RolesCanActivate(Some(roles), user) == RolesCanActivate(Some([AdminRole]), user)
    ensures AdminRole !in roles ==> RolesCanActivate(Some(roles), user) == user.Some?
  {
    assert AdminRole in [AdminRole];
  }
}
