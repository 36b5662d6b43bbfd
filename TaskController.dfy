/** The actions of Controllers/TaskController.cs, on the store of Context.
    GET actions read a table and change nothing; POST and PUT stage their
    changes and commit them with one SaveChanges. */
module TaskController {
  import opened Models
  import opened Tables
  import opened Context
  import opened TaskLedger

  /** GET /tasks: the actual versions, and no others, in store order. */
  function GetAllTasks(tasks: seq<Task>): (r: seq<Task>)
    ensures forall t :: t in r <==> t in tasks && t.IsActual
  {
    Filter(tasks, (t: Task) => t.IsActual)
  }

  /** GET /tasks/{id}: the row whose own Id is `id`, or None for the 404. */
  function GetTaskById(tasks: seq<Task>, id: int): (r: Option<Task>)
    ensures r.None? <==> id !in TaskIds(tasks)
    ensures r.Some? ==> r.value in tasks && r.value.Id == id
    ensures r.Some? && UniqueKeys(TaskIds(tasks)) ==> forall t :: t in tasks && t.Id == id ==> t == r.value
  {
    match IndexOf(TaskIds(tasks), id)
    case None => None
    case Some(i) => Some(tasks[i])
  }

  /** The row POST /tasks adds: the body as received, published `now`; a zero Id
      is replaced by the next identity key, any other Id is inserted as given. */
  function Received(task: Task, tasks: seq<Task>, now: Timestamp): (row: Task)
    ensures row.(Id := task.Id, PublishedAt := task.PublishedAt) == task
    ensures row.PublishedAt == now
    ensures task.Id == 0 ==> row.Id !in TaskIds(tasks)
  {
    task.(PublishedAt := now, Id := if task.Id == 0 then FreshKey(TaskIds(tasks)) else task.Id)
  }

  /** A consistent database cannot take a task row whose defect does not exist. */
  lemma NoTaskWithoutDefect(defects: seq<Defect>, projects: seq<Project>, tasks: seq<Task>, users: seq<User>, row: Task)
    requires row.DefectId !in DefectIds(defects)
    ensures !Consistent(defects, projects, tasks + [row], users)
  {
    assert row in tasks + [row];
  }

  /** POST /tasks as written: Conflict when a DEFECT with the body's DefectId exists;
      otherwise the row is inserted, which the database refuses because that
      defect does not exist. So, for a body with no nested Defect object (the only
      bodies this model has), the answer is never Created and Tasks never changes. */
  method CreateTask(ctx: ApplicationContext, task: Task, now: Timestamp) returns (outcome: Outcome)
    requires ctx.Valid()
    modifies ctx
    ensures ctx.Valid()
    ensures ctx.Defects == old(ctx.Defects) && ctx.Projects == old(ctx.Projects) && ctx.Users == old(ctx.Users)
    ensures outcome == Conflict <==> task.DefectId in DefectIds(old(ctx.Defects))
    ensures outcome == Created ==> ctx.Tasks == old(ctx.Tasks) + [Received(task, old(ctx.Tasks), now)]
    ensures outcome != Created ==> ctx.Tasks == old(ctx.Tasks)
    ensures outcome == Conflict || outcome == ServerError
  {
    var existingDefect := IndexOf(DefectIds(ctx.Defects), task.DefectId);
    if existingDefect.Some? {
      return Conflict;
    }
    var row := Received(task, ctx.Tasks, now);
    NoTaskWithoutDefect(ctx.Defects, ctx.Projects, ctx.Tasks, ctx.Users, row);
    var saved := ctx.SaveChanges(ctx.Defects, ctx.Projects, ctx.Tasks + [row], ctx.Users);
    outcome := if saved then Created else ServerError;
  }

  /** The staged table of an update commits exactly when the new row's
      defect, project and executor exist. */
  lemma UpdateTaskCommits(defects: seq<Defect>, projects: seq<Project>, tasks: seq<Task>, users: seq<User>,
                          req: TaskRequest, defectId: int, now: Timestamp)
    requires Consistent(defects, projects, tasks, users)
    requires HasChain(tasks, defectId)
    ensures var r := StageUpdate(tasks, req, defectId, now).value;
      Consistent(defects, projects, r, users) <==> ReferencesExist(r[|tasks|], defects, projects, users)
  {
    var k := LatestIndex(tasks, defectId).value;
    var row := NextVersion(req, tasks[k], FreshKey(TaskIds(tasks)), now);
    var r := Versioned(tasks, k, row);
    assert StageUpdate(tasks, req, defectId, now).value == r;
    assert TaskIds(r) == TaskIds(tasks) + [row.Id];
    assert tasks[k] in tasks;
    if ReferencesExist(row, defects, projects, users) {
      forall t | t in r ensures ReferencesExist(t, defects, projects, users) {
        var j :| 0 <= j < |r| && r[j] == t;
        if j < |tasks| { assert tasks[j] in tasks; }
      }
    } else {
      assert r[|tasks|] in r;
    }
  }

  /** PUT /tasks/{defect_id} as written: carry the most recently published row of
      the defect forward into a new actual row, retire that row, and commit both in
      one SaveChanges. NotFound when the defect has no rows; ServerError when the
      new row names a defect, project or executor that does not exist. */
  method UpdateTask(ctx: ApplicationContext, req: TaskRequest, defectId: int, now: Timestamp) returns (outcome: Outcome)
    requires ctx.Valid()
    modifies ctx
    ensures ctx.Valid()
    ensures ctx.Defects == old(ctx.Defects) && ctx.Projects == old(ctx.Projects) && ctx.Users == old(ctx.Users)
    ensures outcome == NotFound <==> !HasChain(old(ctx.Tasks), defectId)
    ensures outcome == NoContent ==> ctx.Tasks == StageUpdate(old(ctx.Tasks), req, defectId, now).value
    ensures outcome == NoContent <==>
      (&& HasChain(old(ctx.Tasks), defectId)
       && ReferencesExist(StageUpdate(old(ctx.Tasks), req, defectId, now).value[|old(ctx.Tasks)|],
                          old(ctx.Defects), old(ctx.Projects), old(ctx.Users)))
    ensures outcome != NoContent ==> ctx.Tasks == old(ctx.Tasks)
    ensures outcome == NotFound || outcome == NoContent || outcome == ServerError
  {
    var existing := LatestIndex(ctx.Tasks, defectId);
    if existing.None? {
      return NotFound;
    }
    var k := existing.value;
    var existingTask := ctx.Tasks[k];
    var newTask := NextVersion(req, existingTask, FreshKey(TaskIds(ctx.Tasks)), now);
    var tasks := ctx.Tasks + [newTask];
    tasks := tasks[k := existingTask.(IsActual := false)];
    assert tasks == Versioned(ctx.Tasks, k, newTask);
    UpdateTaskCommits(ctx.Defects, ctx.Projects, ctx.Tasks, ctx.Users, req, defectId, now);
    var saved := ctx.SaveChanges(ctx.Defects, ctx.Projects, tasks, ctx.Users);
    outcome := if saved then NoContent else ServerError;
  }

  // The two task actions as the source's own text intends them: the warning at
  // TaskController.cs:62 ("task for defect already exists, must be updated") and the
  // "not finished" note at :53 on CreateTask; the route of UpdateTask names one defect.

  /** Adding the first version of a defect's chain, as an actual row, keeps the ledger invariant. */
  lemma NewChainKeepsLedger(tasks: seq<Task>, row: Task)
    requires LedgerInvariant(tasks)
    requires !HasChain(tasks, row.DefectId)
    requires row.IsActual
    ensures LedgerInvariant(tasks + [row])
  {
    var r := tasks + [row];
    var n := |tasks|;
    forall i, j | 0 <= i < |r| && 0 <= j < |r| && i != j && r[i].IsActual && r[j].DefectId == r[i].DefectId
      ensures r[j].PublishedAt < r[i].PublishedAt
    {
      assert tasks[if i < n then i else j] in tasks;
      assert i < n && j < n;
    }
    forall i | 0 <= i < |r| ensures HasActive(r, r[i].DefectId) {
      if i == n {
        assert r[n].IsActual;
      } else {
        assert HasActive(tasks, tasks[i].DefectId);
        var a :| 0 <= a < n && tasks[a].IsActual && tasks[a].DefectId == tasks[i].DefectId;
        assert r[a] == tasks[a];
      }
    }
  }

  /** POST /tasks as its warning message describes it: Conflict when the defect
      already has a task chain, otherwise the body becomes the chain's first, actual version. */
  method CreateInitialTask(ctx: ApplicationContext, task: Task, now: Timestamp) returns (outcome: Outcome)
    requires ctx.Valid()
    modifies ctx
    ensures ctx.Valid()
    ensures ctx.Defects == old(ctx.Defects) && ctx.Projects == old(ctx.Projects) && ctx.Users == old(ctx.Users)
    ensures outcome == Conflict <==> HasChain(old(ctx.Tasks), task.DefectId)
    ensures outcome == Created <==>
      (&& !HasChain(old(ctx.Tasks), task.DefectId)
       && Consistent(old(ctx.Defects), old(ctx.Projects),
                     old(ctx.Tasks) + [Received(task, old(ctx.Tasks), now).(IsActual := true)], old(ctx.Users)))
    ensures outcome == Created ==> ctx.Tasks == old(ctx.Tasks) + [Received(task, old(ctx.Tasks), now).(IsActual := true)]
    ensures outcome != Created ==> ctx.Tasks == old(ctx.Tasks)
    ensures outcome == Created || outcome == Conflict || outcome == ServerError
    ensures LedgerInvariant(old(ctx.Tasks)) ==> LedgerInvariant(ctx.Tasks)
    ensures HasChain(ctx.Tasks, task.DefectId) <==> outcome != ServerError
  {
    if HasChain(ctx.Tasks, task.DefectId) {
      return Conflict;
    }
    var row := Received(task, ctx.Tasks, now).(IsActual := true);
    if LedgerInvariant(ctx.Tasks) {
      NewChainKeepsLedger(ctx.Tasks, row);
    }
    assert row in ctx.Tasks + [row];
    var saved := ctx.SaveChanges(ctx.Defects, ctx.Projects, ctx.Tasks + [row], ctx.Users);
    outcome := if saved then Created else ServerError;
  }

  /** Creating the same defect's task twice: once it has been created, the second
      attempt is a Conflict and changes nothing. */
  method CreateInitialTaskTwice(ctx: ApplicationContext, task: Task, now: Timestamp, later: Timestamp)
    returns (first: Outcome, second: Outcome)
    requires ctx.Valid()
    modifies ctx
    ensures first == Created ==> second == Conflict
    ensures first == Conflict ==> second == Conflict
  {
    first := CreateInitialTask(ctx, task, now);
    second := CreateInitialTask(ctx, task, later);
  }

  /** PUT /tasks/{defect_id} with the version kept on the route's defect: as UpdateTask,
      but the new version always stays on the defect it was carried forward from. */
  method AppendTaskVersion(ctx: ApplicationContext, req: TaskRequest, defectId: int, now: Timestamp) returns (outcome: Outcome)
    requires ctx.Valid()
    modifies ctx
    ensures ctx.Valid()
    ensures ctx.Defects == old(ctx.Defects) && ctx.Projects == old(ctx.Projects) && ctx.Users == old(ctx.Users)
    ensures outcome == NotFound <==> !HasChain(old(ctx.Tasks), defectId)
    ensures outcome == NoContent ==> ctx.Tasks == StageAppend(old(ctx.Tasks), req, defectId, now).value
    ensures outcome != NoContent ==> ctx.Tasks == old(ctx.Tasks)
    ensures outcome == NotFound || outcome == NoContent || outcome == ServerError
    ensures LedgerInvariant(old(ctx.Tasks)) && (forall t :: t in old(ctx.Tasks) ==> t.PublishedAt < now)
      ==> LedgerInvariant(ctx.Tasks)
  {
    if HasChain(ctx.Tasks, defectId) && LedgerInvariant(ctx.Tasks) && forall t :: t in ctx.Tasks ==> t.PublishedAt < now {
      AppendKeepsLedger(ctx.Tasks, req, defectId, now);
    }
    outcome := UpdateTask(ctx, req.(DefectId := None), defectId, now);
  }
}
