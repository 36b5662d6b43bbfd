# Engineering back office: task ledger, CRUD controllers and access policy

This project models the engineering back-office service in Dafny. The service tracks defects, the projects they belong to, the remediation tasks for each defect, and the users who carry them out. The model covers:

- **The store** (`Context`). `ApplicationContext` is a class holding the four tables (Defects, Projects, Tasks, Users) as sequences in store order.
  - `Consistent` states what the database accepts at commit time: unique primary keys; the task foreign keys to defect, project and optional executor; and the `MaxLength` limits on a user's name and login.
  - `SaveChanges` commits the staged tables in one atomic step when they are consistent. Otherwise nothing is stored and the controller answers 500.
  - The delete behaviours of `OnModelCreating` are functions on the Tasks table:
    - deleting a defect or project cascades, removing its task rows (`CascadeDefect`, `CascadeProject`);
    - deleting a user sets `ExecutorId` to null on its tasks (`ClearExecutor`).
- **The task version chain** (`TaskLedger`, `TaskController`). A task is never edited in place.
  - `UpdateTask` finds the most recently published row for a defect, whatever its `IsActual` (`LatestIndex`). It builds a new version that takes each supplied request field and carries the rest forward (`NextVersion`). The new version is appended as the actual row, the old row is retired, and both changes commit in one save (`StageUpdate`).
  - The ledger invariant (`LedgerInvariant`): each defect with versions has exactly one actual version, and it is the latest one.
- **Field-level partial updates** of users, defects and projects. A field is overwritten only by a non-empty string, or a non-zero enum or int. Also modelled:
  - the login-conflict check on user creation;
  - the hash-free `UserResponse` projection.
- **The access policy** (`AccessPolicy`): the `[Authorize]` attributes as a pure function from endpoint group and caller to Allow, 401 or 403.

Each state-changing action is a module-level method that takes the `ApplicationContext` as a parameter and commits through its one method, `SaveChanges`. The action's postcondition gives the answer (`Outcome`: 201, 204, 400, 404, 409 or 500) and the complete new state, stated through a specification function (`StageUpdate`, `StageUserUpdate`, `DeleteDefectTables`, …). Lemmas prove what the source promises about those functions.

Where the code's own text (the warning at Controllers/TaskController.cs:62, the "not finished" note at :53, the route naming one defect at :80) and its behaviour disagree, the model follows the behaviour:

- `CreateTask` looks for an existing **defect**, not an existing task chain.
- `UpdateTask` takes a `DefectId` from the request body, so a new version can move to another defect's chain.
- `UpdateTask` carries forward the latest row without checking that it is the actual one.
- `CreateTask` stores `IsActual` as received.

Both halves of the first two disagreements are under "## Findings".

`UpdateUser` does not check that a new login is unused, and the schema has no unique index on logins. So login uniqueness holds only at creation.

## Model

| member | source | states |
|---|---|---|
| Models.Utf16Length | Models/User.cs:8-11 | C# `string.Length`: at least one and at most two code units per character |
| Models.AstralCharCountsTwice | Models/UserRequest.cs:9-12 | a character outside the Basic Multilingual Plane is one character but two code units, so [MaxLength] and a varchar column count it differently |
| Context.ApplicationContext.SaveChanges | Controllers/TaskController.cs:118 | the staged tables are stored iff the database accepts them (keys, foreign keys, user column limits); otherwise nothing changes; the store stays consistent |
| Context.ApplicationContext.constructor | Context/ApplicationContext.cs:13-16 | a new database has four empty tables and is consistent |
| Context.CascadeDefect | Context/ApplicationContext.cs:26-30 | the surviving task rows are exactly those whose DefectId is not the deleted defect |
| Context.CascadeProject | Context/ApplicationContext.cs:32-36 | the surviving task rows are exactly those whose ProjectId is not the deleted project |
| Context.ClearExecutor | Context/ApplicationContext.cs:20-24 | no task row is lost; rows assigned to the deleted user lose their executor, every other row is unchanged |
| Context.FilterKeepsTaskKeys | Context/ApplicationContext.cs:26-36 | removing task rows keeps task keys unique |
| Context.DeleteDefectKeepsConsistency | Context/ApplicationContext.cs:26-30 | after deleting a defect with its cascade, every remaining task's defect, project and executor exist |
| Context.DeleteProjectKeepsConsistency | Context/ApplicationContext.cs:32-36 | after deleting a project with its cascade, referential integrity still holds |
| Context.DeleteUserKeepsConsistency | Context/ApplicationContext.cs:20-24 | after deleting a user with SET NULL, referential integrity still holds |
| Context.AddDefectKeepsConsistency | Controllers/DefectController.cs:54-61 | a defect with an unused key can always be committed |
| Context.ReplaceDefectKeepsConsistency | Controllers/DefectController.cs:86-101 | a defect rewritten under its own key can always be committed |
| Context.AddProjectKeepsConsistency | Controllers/ProjectController.cs:54-61 | a project with an unused key can always be committed |
| Context.ReplaceProjectKeepsConsistency | Controllers/ProjectController.cs:85-96 | a project rewritten under its own key can always be committed |
| Tables.IndexOf | Controllers/TaskController.cs:38-42 | `FirstOrDefault` by key: None iff the key is absent, otherwise the first position holding it |
| Tables.FreshKey | Controllers/DefectController.cs:54-60 | the identity key handed to a new row is positive and larger than every key in use |
| Tables.Filter | Controllers/TaskController.cs:29 | `Where`: a row is in the result iff it is in the table and satisfies the predicate |
| Tables.RemoveAtKeys | Controllers/DefectController.cs:126 | removing one row keeps keys unique and removes exactly that row's key |
| Tables.FilterOriginIncreasing | Context/ApplicationContext.cs:26-36 | a filtered table keeps store order: later kept rows come from later positions |
| TaskController.GetAllTasks | Controllers/TaskController.cs:29 | a row is returned iff it is stored and IsActual |
| TaskController.GetTaskById | Controllers/TaskController.cs:38-47 | None (404) iff no task has that Id; otherwise a stored row with that Id, the only one when keys are unique |
| TaskController.Received | Controllers/TaskController.cs:65-66 | the inserted row equals the body except PublishedAt := now and, for a zero Id, a fresh key |
| TaskController.NoTaskWithoutDefect | Context/ApplicationContext.cs:26-30 | a task row whose defect does not exist can never be committed |
| TaskController.CreateTask | Controllers/TaskController.cs:59-75 | as written: Conflict iff a defect with the body's DefectId exists; otherwise, for a body with no nested Defect object, the insert fails, so the answer is Conflict or 500 and Tasks is unchanged |
| TaskController.UpdateTaskCommits | Controllers/TaskController.cs:100-118 | the staged table commits iff the new row's defect, project and executor exist |
| TaskController.UpdateTask | Controllers/TaskController.cs:85-127 | NotFound iff the defect has no rows; on 204 Tasks becomes `StageUpdate`; 204 iff the new row's references exist; nothing changes otherwise; other tables untouched |
| TaskController.NewChainKeepsLedger | Controllers/TaskController.cs:59-67 | adding an actual first version of a defect with no chain keeps the ledger invariant |
| TaskController.CreateInitialTask | Controllers/TaskController.cs:59-70 | corrected: Conflict iff the defect already has a chain; else Created iff the actual first version commits; keeps the ledger invariant |
| TaskController.CreateInitialTaskTwice | Controllers/TaskController.cs:59-64 | once a defect's task is created, creating it again is a Conflict |
| TaskController.AppendTaskVersion | Controllers/TaskController.cs:85-121 | corrected UpdateTask: the same outcomes, with the new version pinned to the route's defect; keeps the ledger invariant when the clock moves forward |
| TaskLedger.LatestIndex | Controllers/TaskController.cs:85-87 | None iff the defect has no rows; otherwise a row of that defect with the greatest PublishedAt, whatever its IsActual |
| TaskLedger.NextVersion | Controllers/TaskController.cs:100-111 | the new version has the given key, is published now and is actual; it never clears a nullable field the carried-forward row had set; an empty request copies all seven content fields |
| TaskLedger.NextVersionCarriesForward | Controllers/TaskController.cs:100-111 | each of the seven fields comes from the request when supplied, otherwise from the carried-forward row; PublishedAt = now, IsActual = true |
| TaskLedger.NextVersionReaches | Controllers/TaskController.cs:105-108 | an update can produce exactly those contents that never clear a nullable field already set (`??` cannot null a field) |
| TaskLedger.CarryForwardExample | Controllers/TaskController.cs:105-109 | a status-only update keeps the executor and the investment |
| TaskLedger.Versioned | Controllers/TaskController.cs:113-116 | one more row, which is the new version; the carried-forward row is retired; every other row is unchanged |
| TaskLedger.StageUpdate | Controllers/TaskController.cs:85-118 | None iff the defect has no rows; otherwise exactly one more row |
| TaskLedger.StageUpdateShape | Controllers/TaskController.cs:100-118 | the table grows by one; the latest row is retired; every other existing row is unchanged; the new row is `NextVersion` under an unused key |
| TaskLedger.LedgerInvariantSingleActive | Controllers/TaskController.cs:110-115 | under the ledger invariant no defect has two actual versions |
| TaskLedger.LatestIsActive | Controllers/TaskController.cs:94-98 | under the ledger invariant the carried-forward row is the actual one, so the commented-out check could never fire |
| TaskLedger.UpdateKeepsSoleActive | Controllers/TaskController.cs:100-118 | if the carried-forward row was the defect's only actual row and the request keeps DefectId, the new row is the defect's only actual row |
| TaskLedger.FilterKeepsActiveLatest | Context/ApplicationContext.cs:26-36 | deleting task rows keeps each remaining actual version the latest of its defect |
| TaskLedger.StageAppend | Controllers/TaskController.cs:104 | corrected staging: None iff the defect has no rows; the new row always belongs to the route's defect |
| TaskLedger.VersionedKeepsActiveLatest | Controllers/TaskController.cs:100-116 | appending a later actual version of the actual row's defect keeps actual rows latest |
| TaskLedger.VersionedKeepsChainsActive | Controllers/TaskController.cs:110-116 | appending an actual version of the retired row's defect leaves every chain with an actual row |
| TaskLedger.AppendKeepsLedger | Controllers/TaskController.cs:85-118 | with DefectId pinned and a clock that moves forward, an update keeps the ledger invariant |
| TaskLedger.UpdateTaskCanSplitChain | Controllers/TaskController.cs:104 | as written: an update naming another defect leaves its own defect with no actual version and the other with two |
| UserController.ConvertUserToResponse | Controllers/UserController.cs:23-33 | the response has no Id and copies Name, Login, Email, Phone and Role; the type has no PasswordHash field |
| UserController.ResponseHidesHashAndId | Controllers/UserController.cs:23-33 | two users share a response iff they agree on the five visible fields, so it reveals neither the key nor the hash |
| UserController.GetAllUsers | Controllers/UserController.cs:39 | one response per stored user, in store order |
| UserController.GetUserById | Controllers/UserController.cs:48-57 | None (404) iff no user has that Id; otherwise the response of a stored user with that Id |
| UserController.NewUser | Controllers/UserController.cs:74-84 | every field but Id and PasswordHash is copied from the body; the key is unused; the hash is hash(PasswordHash + Login) |
| UserController.NewUserCommits | Controllers/UserController.cs:74-86 | the new user gets an unused key and hash(PasswordHash + Login); the database accepts it iff name and login fit their columns; the new login is then unique |
| UserController.CreateUser | Controllers/UserController.cs:63-95 | BadRequest iff the name is over 256 or the login over 128 UTF-16 code units, as [MaxLength] validation counts them; else Conflict iff a user with that login exists; else Created with exactly one user added |
| UserController.ApplyUserRequest | Controllers/UserController.cs:112-140 | the key is kept; a user within the column limits stays within them after a request that passed validation |
| UserController.UserPatchFields | Controllers/UserController.cs:112-140 | the key is kept; a field changes only to a non-empty request value (non-zero for Role), and every such value is taken, the hash verbatim |
| UserController.UserPatchIdempotent | Controllers/UserController.cs:112-140 | applying a request twice equals applying it once; an empty request changes nothing |
| UserController.StageUserUpdate | Controllers/UserController.cs:104-142 | None iff the Id is absent; otherwise the user with that Id is patched and every other user is unchanged |
| UserController.UpdateUser | Controllers/UserController.cs:100-150 | BadRequest iff a supplied name is over 256 or login over 128 UTF-16 code units; else NotFound iff the Id is absent; else 204 with the patched user; other tables untouched |
| UserController.DeleteUserTables | Controllers/UserController.cs:159-164 | no task row is lost; an absent Id changes nothing; otherwise one user fewer and the tasks unassigned from it |
| UserController.DeleteUserIdempotent | Controllers/UserController.cs:159-167 | exactly the user with that Id is removed; no task row is lost; a second delete changes nothing |
| UserController.ClearExecutorKeepsLedger | Context/ApplicationContext.cs:20-24 | unassigning a deleted user's tasks keeps the ledger invariant |
| UserController.DeleteUser | Controllers/UserController.cs:159-167 | always NoContent; Users and Tasks become `DeleteUserTables` of the old tables |
| DefectController.GetAllDefects | Controllers/DefectController.cs:27 | the whole Defects table, in store order |
| DefectController.GetDefectById | Controllers/DefectController.cs:37-45 | None (404) iff no defect has that Id; otherwise the stored defect with it |
| DefectController.NewDefect | Controllers/DefectController.cs:54-59 | Name, Description and Priority are copied; the body's Id is replaced by an unused key |
| DefectController.CreateDefect | Controllers/DefectController.cs:54-64 | always Created; exactly one defect is appended and nothing else changes |
| DefectController.ApplyDefectRequest | Controllers/DefectController.cs:86-99 | the key is kept; a non-zero Priority stays non-zero and a set Description stays set |
| DefectController.DefectPatchFields | Controllers/DefectController.cs:86-99 | the key is kept; Name and Description change only to non-empty values, Priority only to a non-zero one, and every such value is taken; Priority is 0 afterwards only if it was 0 before |
| DefectController.DefectPatchIdempotent | Controllers/DefectController.cs:86-99 | applying a request twice equals applying it once; an empty request changes nothing |
| DefectController.StageDefectUpdate | Controllers/DefectController.cs:79-101 | None iff the Id is absent; otherwise only the defect with that Id is patched |
| DefectController.UpdateDefect | Controllers/DefectController.cs:79-104 | NotFound iff the Id is absent, otherwise 204 with the patched table; other tables untouched |
| DefectController.DeleteDefectTables | Controllers/DefectController.cs:119-127 | None iff the Id is absent; otherwise the cascade removes that defect's task rows |
| DefectController.DeleteDefectExactly | Controllers/DefectController.cs:119-127 | exactly the defect with that Id is removed, along with exactly the task rows that name it |
| DefectController.DeleteDefectKeepsLedger | Context/ApplicationContext.cs:26-30 | the defect cascade removes whole chains and keeps the ledger invariant |
| DefectController.DeleteDefect | Controllers/DefectController.cs:119-130 | NotFound iff the Id is absent, otherwise 204 with `DeleteDefectTables`; Projects and Users untouched |
| ProjectController.GetAllProjects | Controllers/ProjectController.cs:27 | the whole Projects table, in store order |
| ProjectController.GetProjectById | Controllers/ProjectController.cs:37-45 | None (404) iff no project has that Id; otherwise the stored project with it |
| ProjectController.NewProject | Controllers/ProjectController.cs:54-58 | Name and Status are copied; the body's Id is replaced by an unused key |
| ProjectController.CreateProject | Controllers/ProjectController.cs:54-63 | always Created; exactly one project is appended and nothing else changes |
| ProjectController.ApplyProjectRequest | Controllers/ProjectController.cs:85-93 | the key is kept; a non-zero Status stays non-zero and a non-empty Name stays non-empty |
| ProjectController.ProjectPatchFields | Controllers/ProjectController.cs:85-93 | the key is kept; Name changes only to a non-empty value and Status only to a non-zero one, and every such value is taken |
| ProjectController.ProjectPatchIdempotent | Controllers/ProjectController.cs:85-93 | applying a request twice equals applying it once; an empty request changes nothing |
| ProjectController.StageProjectUpdate | Controllers/ProjectController.cs:78-95 | None iff the Id is absent; otherwise only the project with that Id is patched |
| ProjectController.UpdateProject | Controllers/ProjectController.cs:78-98 | NotFound iff the Id is absent, otherwise 204 with the patched table; other tables untouched |
| ProjectController.DeleteProjectTables | Controllers/ProjectController.cs:113-121 | None iff the Id is absent; otherwise the cascade removes that project's task rows |
| ProjectController.DeleteProjectExactly | Controllers/ProjectController.cs:113-121 | exactly the project with that Id is removed, along with exactly the task rows that name it |
| ProjectController.DeleteProjectKeepsActiveLatest | Context/ApplicationContext.cs:32-36 | after a project cascade, every remaining actual version is still the latest of its defect |
| ProjectController.DeleteProjectCanOrphanChain | Context/ApplicationContext.cs:32-36 | a chain moved between projects can be left with versions but no actual one |
| ProjectController.DeleteProject | Controllers/ProjectController.cs:113-124 | NotFound iff the Id is absent, otherwise 204 with `DeleteProjectTables`; Defects and Users untouched |
| AccessPolicy.RequirementOf | Controllers/TaskController.cs:12 | login is public; logout needs a session; tasks, users, defects and projects need a role |
| AccessPolicy.Authorize | Program.cs:38-47 | 401 iff an anonymous caller hits a non-public endpoint; 403 iff a signed-in caller lacks every listed role; Allow otherwise |
| AccessPolicy.UsersAdminOnly | Controllers/UserController.cs:12 | user actions are allowed to exactly role Admin |
| AccessPolicy.ManagementRolesOnly | Controllers/DefectController.cs:10 | tasks, defects and projects share one rule: exactly Manager or Director |
| AccessPolicy.AdminAndManagementDisjoint | Controllers/UserController.cs:12 | against the rule at Controllers/TaskController.cs:12, no role reaches both users and tasks; Admin gets 403 on tasks, Manager and Director get 403 on users |
| AccessPolicy.AnonymousOnlyLogin | Controllers/AuthController.cs:28-30 | without a session only login is allowed; everything else is 401 |
| AccessPolicy.SignedInMayLogout | Controllers/AuthController.cs:65-68 | every signed-in caller may log out, whatever its role |
| AccessPolicy.SignedInMayLogInAgain | Controllers/AuthController.cs:28-30 | login is public, so a signed-in caller may call it too |

## Left out

- HTTP plumbing is not modelled: routing, model binding, async/await, `ILogger` and `Console` output. The route template `{defect_id}` versus the parameter `defectId` is part of this; `defectId` is taken as an explicit argument.
- Login and logout in the cookie handler are not modelled, beyond the access policy. Claims construction, cookie sign-in/sign-out and `BCrypt.Verify` are framework or foreign-library calls.
- BCrypt hashing is a function parameter `hash`. The current time is a parameter `now`.
- `Program.cs` service registration, CORS, Swagger and HTTPS redirection are configuration, and are not modelled.
- The `Role` and `Status` enums are not part of this model. Status and Role are integers, and 0 is the default.
  - The access policy works on the role name carried in the session claim (`Role.ToString()`).
  - The mapping from enum value to name is not modelled.
- Money and date values are opaque integers. No arithmetic or calendar semantics are modelled.
- Concurrency and transaction isolation between simultaneous requests are not modelled. Each action is one atomic step.
- CreateUser, UpdateUser: model validation is modelled only for the `[MaxLength]` limits on Name and Login (the 400). A body missing a `required` member is also a 400; bodies in this model always carry every member.
- UserController.GetAllUsers: the model gives the intended projection of every user. As written, the query at Controllers/UserController.cs:39 projects through a private instance method; EF Core refuses such a client projection, because it captures the controller, with an InvalidOperationException, and the action has no try/catch. So GET /users would answer 500 on every call. That refusal is framework behaviour and is not modelled.
- Store failures other than constraint violations (connection loss, timeouts) are not modelled.
  - `SaveChanges` fails only when the staged tables break a key, foreign-key or column constraint.
  - So actions whose staged tables are always consistent (CreateDefect, UpdateDefect, DeleteDefect, the project actions, CreateUser and UpdateUser after validation, DeleteUser) never answer 500 in the model.
- EF `Include` joins (Controllers/TaskController.cs:39-41) are not modelled. They enrich a read; the model returns the stored row.
- Key assignment is modelled as "one more than the largest key in use" (`FreshKey`). A PostgreSQL identity sequence also skips keys consumed by failed inserts and deleted rows. The model only guarantees an unused key. A sequence also does not skip keys that were inserted explicitly: `Received` keeps a non-zero Id given in a task body, so a key generated later by the database can collide with it and fail that insert, while `FreshKey` never collides.
- TaskLedger.LatestIndex: among rows of one defect published at the same instant, the model takes the earliest in store order. SQL leaves that tie-break unspecified.
- TaskLedger.Versioned: the new row's position (appended last) is a modelling choice. Store order of a SQL table is unspecified.
- TaskController.GetAllTasks: the contract states which rows are returned, not their order or multiplicity.
- TaskController.CreateTask: the body's nullable `Defect`, `Executor` and `Project` navigation properties (Models/Task.cs:20-22) are not modelled. EF would also insert related entities supplied there.
- DefectController.CreateDefect, ProjectController.CreateProject: the contracts do not model the identity sequence, only a fresh key.

## Findings

| source | as written | input that shows it | evidently intended | confidence | as-written member | corrected member |
|---|---|---|---|---|---|---|
| Controllers/TaskController.cs:59-67 | Conflict when a **defect** with the body's DefectId exists; otherwise the row is inserted, and the DefectId foreign key refuses it | any body with no nested `Defect` object: when its defect exists the answer is 409, when it does not the commit fails with 500; Created is unreachable for such bodies (a body carrying a new nested Defect can still be inserted) | Conflict when the defect already has a task chain (the log message says "task for defect already exists"); otherwise insert the first, actual version | medium, not executed | TaskController.CreateTask | TaskController.CreateInitialTask |
| Controllers/TaskController.cs:104 | the new version's DefectId is taken from the request when supplied | rows (Id 1, defect 1, actual) and (Id 2, defect 2, actual); PUT for defect 1 with DefectId 2 at time 20: defect 1 keeps a retired row but no actual one, defect 2 has two actual rows | the new version stays on the chain of the defect named in the route | medium, not executed | TaskLedger.UpdateTaskCanSplitChain | TaskController.AppendTaskVersion |
