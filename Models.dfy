/** Entities, request bodies and responses of the engineering back office
    (the Models directory), and the answers a controller action can give. */
module Models {

  datatype Option<+T> = None | Some(value: T)

  /** The C# `??` operator: the supplied value if there is one, else the fallback. */
  function Coalesce<T>(o: Option<T>, fallback: T): (r: T)
    ensures o.Some? ==> r == o.value
    ensures o.None? ==> r == fallback
  {
    match o
    case Some(v) => v
    case None => fallback
  }

  /** `!string.IsNullOrEmpty(s)` for a nullable string of a request body. */
  predicate NonEmpty(s: Option<string>)
  {
    s.Some? && |s.value| > 0
  }

  /** C# `string.Length`: the number of UTF-16 code units, where a character
      outside the Basic Multilingual Plane takes two. */
  function Utf16Length(s: string): (n: nat)
    ensures |s| <= n <= 2 * |s|
  {
    if |s| == 0 then 0
    else (if s[0] as int > 0xFFFF then 2 else 1) + Utf16Length(s[1..])
  }

  /** One emoji is one character but two UTF-16 code units. */
  lemma AstralCharCountsTwice()
    ensures |"\U{1F600}"| == 1 && Utf16Length("\U{1F600}") == 2
  {
  }

  // Opaque value types. They are compared and copied, never computed with.
  type Timestamp = int   // DateTime, as ticks
  type Date = int        // DateOnly
  type Money = int       // SqlMoney
  type Status = int      // the Status enum, by its underlying value (0 is the default)
  type Role = int        // the Role enum, by its underlying value (0 is the default)

  /** One version of a remediation task (Models/Task.cs). The navigation
      properties Defect, Executor and Project are read-time joins and are not stored. */
  datatype Task = Task(
    Id: int,
    PublishedAt: Timestamp,
    ProjectId: int,
    DefectId: int,
    ExecutorId: Option<int>,
    Term: Option<Date>,
    Status: Status,
    Comments: Option<string>,
    Investment: Money,
    IsActual: bool)

  /** Body of a task update: every field may be absent (Models/TaskRequest.cs). */
  datatype TaskRequest = TaskRequest(
    ProjectId: Option<int>,
    DefectId: Option<int>,
    ExecutorId: Option<int>,
    Term: Option<Date>,
    Status: Option<Status>,
    Comments: Option<string>,
    Investment: Option<Money>)

  datatype User = User(
    Id: int,
    Name: string,
    Login: string,
    PasswordHash: string,
    Email: string,
    Phone: string,
    Role: Role)

  datatype UserRequest = UserRequest(
    Id: Option<int>,
    Name: Option<string>,
    Login: Option<string>,
    PasswordHash: Option<string>,
    Email: Option<string>,
    Phone: Option<string>,
    Role: Role)

  /** What clients see of a user: there is no PasswordHash field at all. */
  datatype UserResponse = UserResponse(
    Id: Option<int>,
    Name: Option<string>,
    Login: Option<string>,
    Email: Option<string>,
    Phone: Option<string>,
    Role: Role)

  datatype Defect = Defect(Id: int, Name: string, Description: Option<string>, Priority: int)

  /** Body of a defect update, as DefectController.UpdateDefect reads it. */
  datatype DefectRequest = DefectRequest(Name: Option<string>, Description: Option<string>, Priority: int)

  datatype Project = Project(Id: int, Name: string, Status: Status)

  /** Body of a project update, as ProjectController.UpdateProject reads it. */
  datatype ProjectRequest = ProjectRequest(Name: Option<string>, Status: Status)

  /** The answer of a state-changing controller action: 201, 204, 400, 404, 409 or 500.
      BadRequest is the answer of [ApiController]'s automatic model validation,
      given before the action body runs. */
  datatype Outcome = Created | NoContent | BadRequest | NotFound | Conflict | ServerError

  // Primary keys of each table, in store order.

  function TaskIds(tasks: seq<Task>): (ids: seq<int>)
    ensures |ids| == |tasks|
    ensures forall i :: 0 <= i < |tasks| ==> ids[i] == tasks[i].Id
  {
    seq(|tasks|, i requires 0 <= i < |tasks| => tasks[i].Id)
  }

  function UserIds(users: seq<User>): (ids: seq<int>)
    ensures |ids| == |users|
    ensures forall i :: 0 <= i < |users| ==> ids[i] == users[i].Id
  {
    seq(|users|, i requires 0 <= i < |users| => users[i].Id)
  }

  function UserLogins(users: seq<User>): (logins: seq<string>)
    ensures |logins| == |users|
    ensures forall i :: 0 <= i < |users| ==> logins[i] == users[i].Login
  {
    seq(|users|, i requires 0 <= i < |users| => users[i].Login)
  }

  function DefectIds(defects: seq<Defect>): (ids: seq<int>)
    ensures |ids| == |defects|
    ensures forall i :: 0 <= i < |defects| ==> ids[i] == defects[i].Id
  {
    seq(|defects|, i requires 0 <= i < |defects| => defects[i].Id)
  }

  function ProjectIds(projects: seq<Project>): (ids: seq<int>)
    ensures |ids| == |projects|
    ensures forall i :: 0 <= i < |projects| ==> ids[i] == projects[i].Id
  {
    seq(|projects|, i requires 0 <= i < |projects| => projects[i].Id)
  }
}
