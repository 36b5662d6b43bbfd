/** Who may call which controller: the [Authorize] attributes on the controllers
    and their actions, and the 401/403 answers the cookie handler gives (Program.cs). */
module AccessPolicy {

  /** The groups of actions that share one authorization requirement. */
  datatype Endpoint = AuthLogin | AuthLogout | Tasks | Users | Defects | Projects

  /** The caller: without a session cookie, or signed in with the role claim
      `Role.ToString()` written at login. */
  datatype Principal = Anonymous | SignedIn(role: string)

  /** What an [Authorize] attribute demands: nothing, any signed-in caller, or one of some roles. */
  datatype Requirement = Public | AnyUser | InRole(roles: set<string>)

  /** 200-class dispatch, 401 (not signed in) or 403 (signed in, wrong role). */
  datatype Decision = Allow | Unauthorized | Forbidden

  /** The requirement of each endpoint group. `Roles = "Manager, Director"` is a
      comma-separated list, each name trimmed; role names match exactly. */
  function RequirementOf(e: Endpoint): (r: Requirement)
    ensures r.InRole? <==> e in {Tasks, Users, Defects, Projects}
    ensures r.Public? <==> e == AuthLogin
  {
    match e
    case AuthLogin => Public
    case AuthLogout => AnyUser
    case Users => InRole({"Admin"})
    case Tasks => InRole({"Manager", "Director"})
    case Defects => InRole({"Manager", "Director"})
    case Projects => InRole({"Manager", "Director"})
  }

  /** The decision for one request: a public endpoint admits everyone; otherwise an
      anonymous caller gets 401 and a signed-in one without a listed role gets 403. */
  function Authorize(e: Endpoint, p: Principal): (d: Decision)
    ensures d == Unauthorized <==> p.Anonymous? && !RequirementOf(e).Public?
    ensures d == Forbidden <==> p.SignedIn? && RequirementOf(e).InRole? && p.role !in RequirementOf(e).roles
    ensures d == Allow <==>
      (|| RequirementOf(e).Public?
       || (p.SignedIn? && (RequirementOf(e).AnyUser? || p.role in RequirementOf(e).roles)))
  {
    match RequirementOf(e)
    case Public => Allow
    case AnyUser => if p.Anonymous? then Unauthorized else Allow
    case InRole(roles) =>
      if p.Anonymous? then Unauthorized
      else if p.role in roles then Allow
      else Forbidden
  }

  /** Every user action is permitted to role Admin and to nobody else. */
  lemma UsersAdminOnly(p: Principal)
    ensures Authorize(Users, p) == Allow <==> p == SignedIn("Admin")
  {
  }

  /** Tasks, defects and projects share one rule: Manager or Director, nobody else. */
  lemma ManagementRolesOnly(e: Endpoint, p: Principal)
    requires e in {Tasks, Defects, Projects}
    ensures Authorize(e, p) == Allow <==> p == SignedIn("Manager") || p == SignedIn("Director")
    ensures Authorize(e, p) == Authorize(Tasks, p)
  {
  }

  /** No role reaches both the user administration and the task ledger: an Admin
      is refused with 403 on tasks, defects and projects, and a Manager or Director on users. */
  lemma AdminAndManagementDisjoint(role: string)
    ensures !(Authorize(Users, SignedIn(role)) == Allow && Authorize(Tasks, SignedIn(role)) == Allow)
    ensures role == "Admin" ==> Authorize(Tasks, SignedIn(role)) == Forbidden
    ensures role in {"Manager", "Director"} ==> Authorize(Users, SignedIn(role)) == Forbidden
  {
  }

  /** A caller without a session reaches only the login endpoint; everything else is 401. */
  lemma AnonymousOnlyLogin(e: Endpoint)
    ensures Authorize(e, Anonymous) == Allow <==> e == AuthLogin
    ensures e != AuthLogin ==> Authorize(e, Anonymous) == Unauthorized
  {
  }

  /** Any signed-in caller, whatever its role, may log out. */
  lemma SignedInMayLogout(role: string)
    ensures Authorize(AuthLogout, SignedIn(role)) == Allow
  {
  }

  /** Login is public, so a signed-in caller may also log in again. */
  lemma SignedInMayLogInAgain(role: string)
    ensures Authorize(AuthLogin, SignedIn(role)) == Allow
  {
  }
}
