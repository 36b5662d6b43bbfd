/** The actions of Controllers/ProjectController.cs. */
module ProjectController {
  import opened Models
  import opened Tables
  import opened Context
  import opened TaskLedger

  /** GET /projects: the whole table, in store order. */
  function GetAllProjects(projects: seq<Project>): (r: seq<Project>)
    ensures |r| == |projects|
    ensures forall i :: 0 <= i < |projects| ==> r[i] == projects[i]
  {
    projects
  }

  /** GET /projects/{id}: the project with that Id, or None for the 404. */
  function GetProjectById(projects: seq<Project>, id: int): (r: Option<Project>)
    ensures r.None? <==> id !in ProjectIds(projects)
    ensures r.Some? ==> r.value in projects && r.value.Id == id
    ensures r.Some? && UniqueKeys(ProjectIds(projects)) ==> forall p :: p in projects && p.Id == id ==> p == r.value
  {
    match IndexOf(ProjectIds(projects), id)
    case None => None
    case Some(i) => Some(projects[i])
  }

  /** The row POST /projects stores: Name and Status of the body under a new
      identity key; the body's Id, if any, is ignored. */
  function NewProject(project: Project, projects: seq<Project>): (p: Project)
    ensures p.Id !in ProjectIds(projects)
    ensures p.(Id := project.Id) == project
  {
    Project(Id := FreshKey(ProjectIds(projects)), Name := project.Name, Status := project.Status)
  }

  /** POST /projects: always Created; exactly one project is added and nothing else changes. */
  method CreateProject(ctx: ApplicationContext, project: Project) returns (outcome: Outcome)
    requires ctx.Valid()
    modifies ctx
    ensures ctx.Valid()
    ensures outcome == Created
    ensures ctx.Projects == old(ctx.Projects) + [NewProject(project, old(ctx.Projects))]
    ensures ctx.Defects == old(ctx.Defects) && ctx.Tasks == old(ctx.Tasks) && ctx.Users == old(ctx.Users)
  {
    var newProject := NewProject(project, ctx.Projects);
    AddProjectKeepsConsistency(ctx.Defects, ctx.Projects, ctx.Tasks, ctx.Users, newProject);
    var saved := ctx.SaveChanges(ctx.Defects, ctx.Projects + [newProject], ctx.Tasks, ctx.Users);
    outcome := if saved then Created else ServerError;
  }

  /** The field-by-field partial update of PUT /projects/{id}. */
  function ApplyProjectRequest(p: Project, req: ProjectRequest): (r: Project)
    ensures r.Id == p.Id
    ensures p.Status != 0 ==> r.Status != 0
    ensures p.Name != "" ==> r.Name != ""
  {
    Project(
      Id := p.Id,
      Name := if NonEmpty(req.Name) then req.Name.value else p.Name,
      Status := if req.Status != 0 then req.Status else p.Status)
  }

  /** The key never changes; Name changes only to a non-empty request name and
      Status only to a non-zero request status, and every such value is taken.
      So Status never becomes 0 unless it already was. */
  lemma ProjectPatchFields(p: Project, req: ProjectRequest)
    ensures var r := ApplyProjectRequest(p, req);
      && r.Id == p.Id
      && (r.Name != p.Name ==> NonEmpty(req.Name)) && (NonEmpty(req.Name) ==> r.Name == req.Name.value)
      && (r.Status != p.Status ==> req.Status != 0) && (req.Status != 0 ==> r.Status == req.Status)
      && (r.Status == 0 <==> p.Status == 0 && req.Status == 0)
      && (p.Name != "" ==> r.Name != "")
  {
  }

  /** Applying the same request twice is applying it once, and an empty request changes nothing. */
  lemma ProjectPatchIdempotent(p: Project, req: ProjectRequest)
    ensures ApplyProjectRequest(ApplyProjectRequest(p, req), req) == ApplyProjectRequest(p, req)
    ensures (!NonEmpty(req.Name) && req.Status == 0) ==> ApplyProjectRequest(p, req) == p
  {
  }

  /** The Projects table after a successful update (no other project changes), or None for the 404. */
  function StageProjectUpdate(projects: seq<Project>, id: int, req: ProjectRequest): (r: Option<seq<Project>>)
    ensures r.None? <==> id !in ProjectIds(projects)
    ensures r.Some? ==> |r.value| == |projects| && ProjectIds(r.value) == ProjectIds(projects)
    ensures r.Some? && UniqueKeys(ProjectIds(projects)) ==> forall j :: 0 <= j < |projects| ==>
      r.value[j] == if projects[j].Id == id then ApplyProjectRequest(projects[j], req) else projects[j]
  {
    match IndexOf(ProjectIds(projects), id)
    case None => None
    case Some(i) =>
      var r := projects[i := ApplyProjectRequest(projects[i], req)];
      assert ProjectIds(r) == ProjectIds(projects);
      Some(r)
  }

  /** PUT /projects/{id}: NotFound when no project has that Id; otherwise the
      partial update of that one project, which the database always accepts. */
  method UpdateProject(ctx: ApplicationContext, req: ProjectRequest, id: int) returns (outcome: Outcome)
    requires ctx.Valid()
    modifies ctx
    ensures ctx.Valid()
    ensures ctx.Defects == old(ctx.Defects) && ctx.Tasks == old(ctx.Tasks) && ctx.Users == old(ctx.Users)
    ensures outcome == NotFound <==> id !in ProjectIds(old(ctx.Projects))
    ensures outcome == NoContent <==> id in ProjectIds(old(ctx.Projects))
    ensures outcome == NoContent ==> ctx.Projects == StageProjectUpdate(old(ctx.Projects), id, req).value
    ensures outcome == NotFound ==> ctx.Projects == old(ctx.Projects)
  {
    var existing := IndexOf(ProjectIds(ctx.Projects), id);
    if existing.None? {
      return NotFound;
    }
    var i := existing.value;
    var existingProject := ctx.Projects[i];
    var projects := ctx.Projects[i := ApplyProjectRequest(existingProject, req)];
    ReplaceProjectKeepsConsistency(ctx.Defects, ctx.Projects, ctx.Tasks, ctx.Users, i, projects[i]);
    var saved := ctx.SaveChanges(ctx.Defects, projects, ctx.Tasks, ctx.Users);
    outcome := if saved then NoContent else ServerError;
  }

  /** The Projects and Tasks tables after DELETE /projects/{id}, or None for the 404:
      the project removed and, by cascade, every task row that names it. */
  function DeleteProjectTables(projects: seq<Project>, tasks: seq<Task>, id: int): (r: Option<(seq<Project>, seq<Task>)>)
    ensures r.None? <==> id !in ProjectIds(projects)
    ensures r.Some? ==> r.value.1 == CascadeProject(tasks, id)
  {
    match IndexOf(ProjectIds(projects), id)
    case None => None
    case Some(i) => Some((RemoveAt(projects, i), CascadeProject(tasks, id)))
  }

  /** Deleting removes exactly the project with that Id and exactly the task rows
      that name it; every other project and task row survives. */
  lemma DeleteProjectExactly(projects: seq<Project>, tasks: seq<Task>, id: int)
    requires UniqueKeys(ProjectIds(projects))
    requires id in ProjectIds(projects)
    ensures var (projects', tasks') := DeleteProjectTables(projects, tasks, id).value;
      && |projects'| == |projects| - 1
      && id !in ProjectIds(projects')
      && (forall p :: p in projects' <==> p in projects && p.Id != id)
      && (forall t :: t in tasks' <==> t in tasks && t.ProjectId != id)
  {
    var i := IndexOf(ProjectIds(projects), id).value;
    var projects' := RemoveAt(projects, i);
    assert ProjectIds(projects') == RemoveAt(ProjectIds(projects), i);
    RemoveAtKeys(ProjectIds(projects), i);
    RemoveAtMembers(projects, i);
    forall p | p in projects ensures p.Id == id <==> p == projects[i] {
      var j :| 0 <= j < |projects| && projects[j] == p;
      assert ProjectIds(projects)[j] == p.Id;
    }
  }

  /** Deleting a project keeps every remaining actual version the latest of its defect. */
  lemma DeleteProjectKeepsActiveLatest(tasks: seq<Task>, id: int)
    requires ActiveIsLatest(tasks)
    ensures ActiveIsLatest(CascadeProject(tasks, id))
  {
    FilterKeepsActiveLatest(tasks, (t: Task) => t.ProjectId != id);
  }

  /** A chain moved between projects by UpdateTask can lose its actual version:
      defect 1 was first planned under project 1 and is now under project 2;
      deleting project 2 leaves the defect with a history but no actual version. */
  lemma DeleteProjectCanOrphanChain()
    ensures var tasks := [Task(1, 10, 1, 1, None, None, 0, None, 0, false),
                          Task(2, 20, 2, 1, None, None, 0, None, 0, true)];
      var r := CascadeProject(tasks, 2);
      && LedgerInvariant(tasks)
      && HasChain(r, 1)
      && !HasActive(r, 1)
  {
    var tasks := [Task(1, 10, 1, 1, None, None, 0, None, 0, false),
                  Task(2, 20, 2, 1, None, None, 0, None, 0, true)];
    assert HasActive(tasks, 1) by { assert tasks[1].IsActual; }
    var r := CascadeProject(tasks, 2);
    assert r == [tasks[0]];
    assert tasks[0] in r;
  }

  /** DELETE /projects/{id}: NotFound when no project has that Id; otherwise the
      project and its task rows are removed in one commit, which always succeeds. */
  method DeleteProject(ctx: ApplicationContext, id: int) returns (outcome: Outcome)
    requires ctx.Valid()
    modifies ctx
    ensures ctx.Valid()
    ensures ctx.Defects == old(ctx.Defects) && ctx.Users == old(ctx.Users)
    ensures outcome == NotFound <==> id !in ProjectIds(old(ctx.Projects))
    ensures outcome == NoContent <==> id in ProjectIds(old(ctx.Projects))
    ensures outcome == NoContent ==> (ctx.Projects, ctx.Tasks) == DeleteProjectTables(old(ctx.Projects), old(ctx.Tasks), id).value
    ensures outcome == NotFound ==> ctx.Projects == old(ctx.Projects) && ctx.Tasks == old(ctx.Tasks)
  {
    var existing := IndexOf(ProjectIds(ctx.Projects), id);
    if existing.None? {
      return NotFound;
    }
    var i := existing.value;
    DeleteProjectKeepsConsistency(ctx.Defects, ctx.Projects, ctx.Tasks, ctx.Users, i);
    var saved := ctx.SaveChanges(ctx.Defects, RemoveAt(ctx.Projects, i), CascadeProject(ctx.Tasks, id), ctx.Users);
    outcome := if saved then NoContent else ServerError;
  }
}
