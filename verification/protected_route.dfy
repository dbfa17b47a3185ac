/** `ProtectedRoute` (src/routes/ProtectedRoute.tsx): what a guarded page shows,
    decided from the authentication part of the store and the roles the route
    admits. */
module ProtectedRoute {
  import opened Common
  import opened Types

  datatype AuthState = AuthState(user: Option<User>, isAuthenticated: bool, isLoading: bool)

  datatype Decision =
    | Checking                  // "Checking authentication..."
    | Redirect(to: string)      // `<Navigate to=... replace />`
    | Render                    // the children

  const LoginPath := "/employee/login"
  const UnauthorizedPath := "/unauthorized"

  /** The user is admitted by the role list: no list admits everyone; a list
      (even an empty one, which JavaScript treats as present) admits only a
      signed-in user whose role name it contains. */
  predicate RoleAllowed(user: Option<User>, allowedRoles: Option<seq<string>>) {
    allowedRoles.None? || (user.Some? && RoleName(user.value.role) in allowedRoles.value)
  }

  function Decide(auth: AuthState, allowedRoles: Option<seq<string>>): (r: Decision)
    ensures auth.isLoading ==> r == Checking
    ensures !auth.isLoading && !auth.isAuthenticated ==> r == Redirect(LoginPath)
    ensures r == Render <==> !auth.isLoading && auth.isAuthenticated && RoleAllowed(auth.user, allowedRoles)
    ensures !auth.isLoading && auth.isAuthenticated && !RoleAllowed(auth.user, allowedRoles) ==>
      r == Redirect(UnauthorizedPath)
  {
    if auth.isLoading then Checking
    else if !auth.isAuthenticated then Redirect(LoginPath)
    else if allowedRoles.Some? && (auth.user.None? || RoleName(auth.user.value.role) !in allowedRoles.value) then
      Redirect(UnauthorizedPath)
    else Render
  }

  /** A signed-in session without a user record is refused by any role list. */
  lemma MissingUserUnauthorized(auth: AuthState, roles: seq<string>)
    requires !auth.isLoading && auth.isAuthenticated && auth.user.None?
    ensures Decide(auth, Some(roles)) == Redirect(UnauthorizedPath)
  {
  }

  /** An empty role list locks everyone out once authenticated. */
  lemma EmptyRoleListDeniesAll(auth: AuthState)
    requires !auth.isLoading && auth.isAuthenticated
    ensures Decide(auth, Some([])) == Redirect(UnauthorizedPath)
  {
  }

  /** Adding roles to the list never takes access away. */
  lemma MoreRolesNeverDeny(auth: AuthState, roles: seq<string>, extra: seq<string>)
    requires Decide(auth, Some(roles)) == Render
    ensures Decide(auth, Some(roles + extra)) == Render
  {
  }

  /** The admin pages admit admins and send employees to the unauthorized page. */
  lemma AdminRouteExamples(u: User)
    ensures Decide(AuthState(Some(u.(role := Admin)), true, false), Some(["admin"])) == Render
    ensures Decide(AuthState(Some(u.(role := Employee)), true, false), Some(["admin"])) == Redirect(UnauthorizedPath)
  {
  }
}
