/** The actions of Controllers/UserController.cs. */
module UserController {
  import opened Models
  import opened Tables
  import opened Context
  import opened TaskLedger

  /** The hash-free view of a user that every read returns; Id is left unset. */
  function ConvertUserToResponse(u: User): (r: UserResponse)
    ensures r.Id.None?
    ensures r.Name == Some(u.Name) && r.Login == Some(u.Login)
    ensures r.Email == Some(u.Email) && r.Phone == Some(u.Phone) && r.Role == u.Role
  {
    UserResponse(Id := None, Name := Some(u.Name), Login := Some(u.Login),
                 Email := Some(u.Email), Phone := Some(u.Phone), Role := u.Role)
  }

  /** Two users have the same response exactly when they agree on the five
      visible fields, so neither the key nor the password hash can be read from it. */
  lemma ResponseHidesHashAndId(a: User, b: User)
    ensures ConvertUserToResponse(a) == ConvertUserToResponse(b) <==>
      a.Name == b.Name && a.Login == b.Login && a.Email == b.Email && a.Phone == b.Phone && a.Role == b.Role
  {
  }

  /** GET /users: one response per stored user, in store order. */
  function GetAllUsers(users: seq<User>): (r: seq<UserResponse>)
    ensures |r| == |users|
    ensures forall i :: 0 <= i < |users| ==> r[i] == ConvertUserToResponse(users[i])
  {
    seq(|users|, i requires 0 <= i < |users| => ConvertUserToResponse(users[i]))
  }

  /** GET /users/{id}: the response for the user with that Id, or None for the 404. */
  function GetUserById(users: seq<User>, id: int): (r: Option<UserResponse>)
    ensures r.None? <==> id !in UserIds(users)
    ensures r.Some? ==> exists u :: u in users && u.Id == id && r.value == ConvertUserToResponse(u)
  {
    match IndexOf(UserIds(users), id)
    case None => None
    case Some(i) => assert users[i] in users; Some(ConvertUserToResponse(users[i]))
  }

  /** The row POST /users stores: the body's fields, with the password hashed
      together with the login, and a new identity key. */
  function NewUser(user: User, users: seq<User>, hash: string -> string): (u: User)
    ensures u.(Id := user.Id, PasswordHash := user.PasswordHash) == user
    ensures u.Id !in UserIds(users)
    ensures u.PasswordHash == hash(user.PasswordHash + user.Login)
  {
    User(Id := FreshKey(UserIds(users)), Name := user.Name, Login := user.Login,
         PasswordHash := hash(user.PasswordHash + user.Login),
         Email := user.Email, Phone := user.Phone, Role := user.Role)
  }

  /** A user with a new key and an unused login commits exactly when its name
      and login fit their columns; the new row is then the only one with that login. */
  lemma NewUserCommits(defects: seq<Defect>, projects: seq<Project>, tasks: seq<Task>, users: seq<User>,
                       user: User, hash: string -> string)
    requires Consistent(defects, projects, tasks, users)
    requires user.Login !in UserLogins(users)
    ensures var u := NewUser(user, users, hash);
      && u.Id !in UserIds(users)
      && u.PasswordHash == hash(user.PasswordHash + user.Login)
      && (Consistent(defects, projects, tasks, users + [u]) <==> FitsColumns(user))
      && forall v :: v in users + [u] && v.Login == user.Login ==> v == u
  {
    var u := NewUser(user, users, hash);
    assert UserIds(users + [u]) == UserIds(users) + [u.Id];
    assert u in users + [u];
    forall t | t in tasks && t.ExecutorId.Some? && t.ExecutorId.value in UserIds(users)
      ensures t.ExecutorId.value in UserIds(users + [u])
    {
      var j :| 0 <= j < |users| && users[j].Id == t.ExecutorId.value;
      assert UserIds(users + [u])[j] == users[j].Id;
    }
    forall v | v in users ensures v.Login != user.Login {
      var j :| 0 <= j < |users| && users[j] == v;
      assert UserLogins(users)[j] == v.Login;
    }
  }

  /** The [MaxLength] attributes of Models/User.cs as model validation checks a
      POST body: string lengths in UTF-16 code units, as C# counts them. */
  predicate BodyPassesValidation(u: User)
  {
    Utf16Length(u.Name) <= 256 && Utf16Length(u.Login) <= 128
  }

  /** POST /users: BadRequest when model validation rejects the body (the
      [MaxLength] of Name or Login); Conflict when a user with the same Login exists;
      otherwise one user is added. */
  method CreateUser(ctx: ApplicationContext, user: User, hash: string -> string) returns (outcome: Outcome)
    requires ctx.Valid()
    modifies ctx
    ensures ctx.Valid()
    ensures ctx.Defects == old(ctx.Defects) && ctx.Projects == old(ctx.Projects) && ctx.Tasks == old(ctx.Tasks)
    ensures outcome == BadRequest <==> !BodyPassesValidation(user)
    ensures outcome == Conflict <==> BodyPassesValidation(user) && user.Login in UserLogins(old(ctx.Users))
    ensures outcome == Created <==> BodyPassesValidation(user) && user.Login !in UserLogins(old(ctx.Users))
    ensures outcome == Created ==> ctx.Users == old(ctx.Users) + [NewUser(user, old(ctx.Users), hash)]
    ensures outcome != Created ==> ctx.Users == old(ctx.Users)
    ensures outcome == Created || outcome == Conflict || outcome == BadRequest
  {
    if !BodyPassesValidation(user) {
      return BadRequest;
    }
    var existingUser := IndexOf(UserLogins(ctx.Users), user.Login);
    if existingUser.Some? {
      return Conflict;
    }
    var newUser := NewUser(user, ctx.Users, hash);
    NewUserCommits(ctx.Defects, ctx.Projects, ctx.Tasks, ctx.Users, user, hash);
    var saved := ctx.SaveChanges(ctx.Defects, ctx.Projects, ctx.Tasks, ctx.Users + [newUser]);
    outcome := if saved then Created else ServerError;
  }

  /** The field-by-field partial update of PUT /users/{id}. */
  function ApplyUserRequest(u: User, req: UserRequest): (r: User)
    ensures r.Id == u.Id
    ensures FitsColumns(u) && RequestPassesValidation(req) ==> FitsColumns(r)
  {
    User(
      Id := u.Id,
      Name := if NonEmpty(req.Name) then req.Name.value else u.Name,
      Login := if NonEmpty(req.Login) then req.Login.value else u.Login,
      PasswordHash := if NonEmpty(req.PasswordHash) then req.PasswordHash.value else u.PasswordHash,
      Email := if NonEmpty(req.Email) then req.Email.value else u.Email,
      Phone := if NonEmpty(req.Phone) then req.Phone.value else u.Phone,
      Role := if req.Role != 0 then req.Role else u.Role)
  }

  /** The key never changes; a field changes only to the request's non-empty value
      (non-zero, for Role), and every such value is taken, the password hash
      verbatim, without hashing. So no field can be blanked and Role cannot be reset to 0. */
  lemma UserPatchFields(u: User, req: UserRequest)
    ensures var r := ApplyUserRequest(u, req);
      && r.Id == u.Id
      && (r.Name != u.Name ==> NonEmpty(req.Name)) && (NonEmpty(req.Name) ==> r.Name == req.Name.value)
      && (r.Login != u.Login ==> NonEmpty(req.Login)) && (NonEmpty(req.Login) ==> r.Login == req.Login.value)
      && (r.PasswordHash != u.PasswordHash ==> NonEmpty(req.PasswordHash))
      && (NonEmpty(req.PasswordHash) ==> r.PasswordHash == req.PasswordHash.value)
      && (r.Email != u.Email ==> NonEmpty(req.Email)) && (NonEmpty(req.Email) ==> r.Email == req.Email.value)
      && (r.Phone != u.Phone ==> NonEmpty(req.Phone)) && (NonEmpty(req.Phone) ==> r.Phone == req.Phone.value)
      && (r.Role != u.Role ==> req.Role != 0) && (req.Role != 0 ==> r.Role == req.Role)
      && (u.Name != "" ==> r.Name != "") && (u.Login != "" ==> r.Login != "")
      && (u.Role != 0 ==> r.Role != 0)
  {
  }

  /** Applying the same request twice is applying it once, and a request with
      every string empty or absent and Role 0 changes nothing. */
  lemma UserPatchIdempotent(u: User, req: UserRequest)
    ensures ApplyUserRequest(ApplyUserRequest(u, req), req) == ApplyUserRequest(u, req)
    ensures (&& !NonEmpty(req.Name) && !NonEmpty(req.Login) && !NonEmpty(req.PasswordHash)
             && !NonEmpty(req.Email) && !NonEmpty(req.Phone) && req.Role == 0) ==> ApplyUserRequest(u, req) == u
  {
  }

  /** The stored row after a successful update (no other user changes), or None for the 404. */
  function StageUserUpdate(users: seq<User>, id: int, req: UserRequest): (r: Option<seq<User>>)
    ensures r.None? <==> id !in UserIds(users)
    ensures r.Some? ==> |r.value| == |users| && UserIds(r.value) == UserIds(users)
    ensures r.Some? && UniqueKeys(UserIds(users)) ==> forall j :: 0 <= j < |users| ==>
      r.value[j] == if users[j].Id == id then ApplyUserRequest(users[j], req) else users[j]
  {
    match IndexOf(UserIds(users), id)
    case None => None
    case Some(i) =>
      var r := users[i := ApplyUserRequest(users[i], req)];
      assert UserIds(r) == UserIds(users);
      Some(r)
  }

  /** The [MaxLength] attributes of Models/UserRequest.cs, checked by model
      validation before UpdateUser runs, in UTF-16 code units. */
  predicate RequestPassesValidation(req: UserRequest)
  {
    (req.Name.Some? ==> Utf16Length(req.Name.value) <= 256) && (req.Login.Some? ==> Utf16Length(req.Login.value) <= 128)
  }

  /** PUT /users/{id}: BadRequest when model validation rejects the body; NotFound
      when no user has that Id; otherwise the partial update of that one user.
      Logins are not checked for uniqueness here. */
  method UpdateUser(ctx: ApplicationContext, id: int, req: UserRequest) returns (outcome: Outcome)
    requires ctx.Valid()
    modifies ctx
    ensures ctx.Valid()
    ensures ctx.Defects == old(ctx.Defects) && ctx.Projects == old(ctx.Projects) && ctx.Tasks == old(ctx.Tasks)
    ensures outcome == BadRequest <==> !RequestPassesValidation(req)
    ensures outcome == NotFound <==> RequestPassesValidation(req) && id !in UserIds(old(ctx.Users))
    ensures outcome == NoContent <==> RequestPassesValidation(req) && id in UserIds(old(ctx.Users))
    ensures outcome == NoContent ==> ctx.Users == StageUserUpdate(old(ctx.Users), id, req).value
    ensures outcome != NoContent ==> ctx.Users == old(ctx.Users)
  {
    if !RequestPassesValidation(req) {
      return BadRequest;
    }
    var existing := IndexOf(UserIds(ctx.Users), id);
    if existing.None? {
      return NotFound;
    }
    var i := existing.value;
    var existingUser := ctx.Users[i];
    var users := ctx.Users[i := ApplyUserRequest(existingUser, req)];
    assert UserIds(users) == UserIds(ctx.Users);
    forall u | u in ctx.Users && u.Id == id ensures u == existingUser {
      var j :| 0 <= j < |ctx.Users| && ctx.Users[j] == u;
      assert UserIds(ctx.Users)[j] == id;
    }
    assert users[i] in users;
    assert existingUser in ctx.Users;
    forall u | u in users ensures FitsColumns(u) {
      var j :| 0 <= j < |users| && users[j] == u;
      if j != i { assert ctx.Users[j] in ctx.Users; }
    }
    var saved := ctx.SaveChanges(ctx.Defects, ctx.Projects, ctx.Tasks, users);
    outcome := if saved then NoContent else ServerError;
  }

  /** The Users and Tasks tables after DELETE /users/{id}: the user removed and its
      tasks unassigned, or both tables as they were when there is no such user. */
  function DeleteUserTables(users: seq<User>, tasks: seq<Task>, id: int): (r: (seq<User>, seq<Task>))
    ensures |r.1| == |tasks|
    ensures id !in UserIds(users) ==> r == (users, tasks)
    ensures id in UserIds(users) ==> |r.0| == |users| - 1 && r.1 == ClearExecutor(tasks, id)
  {
    match IndexOf(UserIds(users), id)
    case None => (users, tasks)
    case Some(i) => (RemoveAt(users, i), ClearExecutor(tasks, id))
  }

  /** Deleting removes at most the one user with that Id, leaves no user with it,
      keeps every task row, and a second delete changes nothing. */
  lemma DeleteUserIdempotent(users: seq<User>, tasks: seq<Task>, id: int)
    requires UniqueKeys(UserIds(users))
    ensures var (users', tasks') := DeleteUserTables(users, tasks, id);
      && id !in UserIds(users')
      && |tasks'| == |tasks|
      && |users'| == (if id in UserIds(users) then |users| - 1 else |users|)
      && (forall u :: u in users' <==> u in users && u.Id != id)
      && DeleteUserTables(users', tasks', id) == (users', tasks')
  {
    match IndexOf(UserIds(users), id)
    case None =>
      forall u | u in users ensures u.Id != id {
        var j :| 0 <= j < |users| && users[j] == u;
        assert UserIds(users)[j] == u.Id;
      }
    case Some(i) =>
      var users' := RemoveAt(users, i);
      assert UserIds(users') == RemoveAt(UserIds(users), i);
      RemoveAtKeys(UserIds(users), i);
      forall u ensures u in users' <==> u in users && u.Id != id {
        if u in users' {
          var j :| 0 <= j < |users'| && users'[j] == u;
          assert UserIds(users')[j] == u.Id;
          if j < i { assert u == users[j]; } else { assert u == users[j + 1]; }
        }
        if u in users && u.Id != id {
          var j :| 0 <= j < |users| && users[j] == u;
          if j < i { assert users'[j] == u; } else if j > i { assert users'[j - 1] == u; }
        }
      }
  }

  /** Unassigning a user touches neither IsActual, DefectId nor PublishedAt of any
      row, so it keeps the ledger invariant. */
  lemma ClearExecutorKeepsLedger(tasks: seq<Task>, id: int)
    requires LedgerInvariant(tasks)
    ensures LedgerInvariant(ClearExecutor(tasks, id))
  {
    var r := ClearExecutor(tasks, id);
    forall i | 0 <= i < |r| ensures HasActive(r, r[i].DefectId) {
      assert HasActive(tasks, tasks[i].DefectId);
      var a :| 0 <= a < |tasks| && tasks[a].IsActual && tasks[a].DefectId == tasks[i].DefectId;
      assert r[a].IsActual && r[a].DefectId == r[i].DefectId;
    }
  }

  /** DELETE /users/{id}: always NoContent; removes the user if it exists and
      nulls ExecutorId on the tasks it was assigned to. */
  method DeleteUser(ctx: ApplicationContext, id: int) returns (outcome: Outcome)
    requires ctx.Valid()
    modifies ctx
    ensures ctx.Valid()
    ensures outcome == NoContent
    ensures ctx.Defects == old(ctx.Defects) && ctx.Projects == old(ctx.Projects)
    ensures (ctx.Users, ctx.Tasks) == DeleteUserTables(old(ctx.Users), old(ctx.Tasks), id)
  {
    var existing := IndexOf(UserIds(ctx.Users), id);
    if existing.Some? {
      var i := existing.value;
      DeleteUserKeepsConsistency(ctx.Defects, ctx.Projects, ctx.Tasks, ctx.Users, i);
      var saved := ctx.SaveChanges(ctx.Defects, ctx.Projects, ClearExecutor(ctx.Tasks, id), RemoveAt(ctx.Users, i));
    }
    outcome := NoContent;
  }
}
