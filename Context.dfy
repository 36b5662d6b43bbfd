/** The database behind the controllers (Context/ApplicationContext.cs): four
    tables, the constraints the schema puts on them, the delete behaviours
    configured in OnModelCreating, and the single commit step `SaveChanges`. */
module Context {
  import opened Models
  import opened Tables

  /** Column limits from the [MaxLength] attributes of Models/User.cs, as the
      database applies them: varchar(n) counts characters. */
  predicate FitsColumns(u: User)
  {
    |u.Name| <= 256 && |u.Login| <= 128
  }

  /** The three foreign keys of a task row: a required defect, a required
      project and an optional executor. */
  predicate ReferencesExist(t: Task, defects: seq<Defect>, projects: seq<Project>, users: seq<User>)
  {
    && t.DefectId in DefectIds(defects)
    && t.ProjectId in ProjectIds(projects)
    && (t.ExecutorId.Some? ==> t.ExecutorId.value in UserIds(users))
  }

  /** Every task row points at rows that exist. */
  predicate ReferentialIntegrity(defects: seq<Defect>, projects: seq<Project>, tasks: seq<Task>, users: seq<User>)
  {
    forall t :: t in tasks ==> ReferencesExist(t, defects, projects, users)
  }

  /** What the database accepts at commit: primary keys, foreign keys and column limits. */
  predicate Consistent(defects: seq<Defect>, projects: seq<Project>, tasks: seq<Task>, users: seq<User>)
  {
    && UniqueKeys(DefectIds(defects))
    && UniqueKeys(ProjectIds(projects))
    && UniqueKeys(TaskIds(tasks))
    && UniqueKeys(UserIds(users))
    && (forall u :: u in users ==> FitsColumns(u))
    && ReferentialIntegrity(defects, projects, tasks, users)
  }

  /** ON DELETE CASCADE from Tasks.DefectId: the task rows that survive deleting defect `defectId`. */
  function CascadeDefect(tasks: seq<Task>, defectId: int): (r: seq<Task>)
    ensures forall t :: t in r <==> t in tasks && t.DefectId != defectId
  {
    Filter(tasks, (t: Task) => t.DefectId != defectId)
  }

  /** ON DELETE CASCADE from Tasks.ProjectId: the task rows that survive deleting project `projectId`. */
  function CascadeProject(tasks: seq<Task>, projectId: int): (r: seq<Task>)
    ensures forall t :: t in r <==> t in tasks && t.ProjectId != projectId
  {
    Filter(tasks, (t: Task) => t.ProjectId != projectId)
  }

  /** ON DELETE SET NULL from Tasks.ExecutorId: the task rows after deleting user `userId`. */
  function ClearExecutor(tasks: seq<Task>, userId: int): (r: seq<Task>)
    ensures |r| == |tasks|
    ensures forall i :: 0 <= i < |tasks| ==>
      r[i] == if tasks[i].ExecutorId == Some(userId) then tasks[i].(ExecutorId := None) else tasks[i]
  {
    seq(|tasks|, i requires 0 <= i < |tasks| =>
      if tasks[i].ExecutorId == Some(userId) then tasks[i].(ExecutorId := None) else tasks[i])
  }

  /** Dropping task rows never makes two of the remaining rows share a key. */
  lemma {:induction false} FilterKeepsTaskKeys(tasks: seq<Task>, keep: Task -> bool)
    requires UniqueKeys(TaskIds(tasks))
    ensures UniqueKeys(TaskIds(Filter(tasks, keep)))
  {
    if |tasks| > 0 {
      var rest := tasks[1..];
      assert UniqueKeys(TaskIds(rest)) by {
        forall i, j | 0 <= i < j < |rest| ensures rest[i].Id != rest[j].Id {
          assert tasks[i + 1].Id != tasks[j + 1].Id;
        }
      }
      FilterKeepsTaskKeys(rest, keep);
      if keep(tasks[0]) {
        var f := Filter(rest, keep);
        var r := [tasks[0]] + f;
        forall j | 0 <= j < |f| ensures f[j].Id != tasks[0].Id {
          assert f[j] in rest;
          var m :| 0 <= m < |rest| && rest[m] == f[j];
          assert tasks[m + 1] == f[j];
        }
        forall i, j | 0 <= i < j < |r| ensures r[i].Id != r[j].Id {
          if i > 0 { assert r[i] == f[i - 1] && r[j] == f[j - 1]; }
        }
      }
    }
  }

  /** Deleting a defect (and, by cascade, its tasks) keeps the database consistent:
      every remaining task still has its defect, project and executor. */
  lemma DeleteDefectKeepsConsistency(defects: seq<Defect>, projects: seq<Project>, tasks: seq<Task>, users: seq<User>, i: nat)
    requires i < |defects|
    requires Consistent(defects, projects, tasks, users)
    ensures Consistent(RemoveAt(defects, i), projects, CascadeDefect(tasks, defects[i].Id), users)
  {
    var defects' := RemoveAt(defects, i);
    assert DefectIds(defects') == RemoveAt(DefectIds(defects), i);
    RemoveAtKeys(DefectIds(defects), i);
    FilterKeepsTaskKeys(tasks, (t: Task) => t.DefectId != defects[i].Id);
  }

  /** Deleting a project (and, by cascade, every task that names it) keeps the database consistent. */
  lemma DeleteProjectKeepsConsistency(defects: seq<Defect>, projects: seq<Project>, tasks: seq<Task>, users: seq<User>, i: nat)
    requires i < |projects|
    requires Consistent(defects, projects, tasks, users)
    ensures Consistent(defects, RemoveAt(projects, i), CascadeProject(tasks, projects[i].Id), users)
  {
    var projects' := RemoveAt(projects, i);
    assert ProjectIds(projects') == RemoveAt(ProjectIds(projects), i);
    RemoveAtKeys(ProjectIds(projects), i);
    FilterKeepsTaskKeys(tasks, (t: Task) => t.ProjectId != projects[i].Id);
  }

  /** Deleting a user (and, by SET NULL, unassigning it from its tasks) keeps the
      database consistent; no task row is lost. */
  lemma DeleteUserKeepsConsistency(defects: seq<Defect>, projects: seq<Project>, tasks: seq<Task>, users: seq<User>, i: nat)
    requires i < |users|
    requires Consistent(defects, projects, tasks, users)
    ensures Consistent(defects, projects, ClearExecutor(tasks, users[i].Id), RemoveAt(users, i))
  {
    var users' := RemoveAt(users, i);
    var tasks' := ClearExecutor(tasks, users[i].Id);
    assert UserIds(users') == RemoveAt(UserIds(users), i);
    assert TaskIds(tasks') == TaskIds(tasks);
    RemoveAtKeys(UserIds(users), i);
    forall u | u in users' ensures FitsColumns(u) {
      var j :| 0 <= j < |users'| && users'[j] == u;
      if j < i { assert u == users[j]; } else { assert u == users[j + 1]; }
    }
    forall t | t in tasks' ensures ReferencesExist(t, defects, projects, users') {
      var j :| 0 <= j < |tasks'| && tasks'[j] == t;
      assert ReferencesExist(tasks[j], defects, projects, users);
    }
  }

  /** A new defect with an unused key can always be stored. */
  lemma AddDefectKeepsConsistency(defects: seq<Defect>, projects: seq<Project>, tasks: seq<Task>, users: seq<User>, d: Defect)
    requires Consistent(defects, projects, tasks, users)
    requires d.Id !in DefectIds(defects)
    ensures Consistent(defects + [d], projects, tasks, users)
  {
    assert DefectIds(defects + [d]) == DefectIds(defects) + [d.Id];
  }

  /** A defect row rewritten under its own key can always be stored. */
  lemma ReplaceDefectKeepsConsistency(defects: seq<Defect>, projects: seq<Project>, tasks: seq<Task>, users: seq<User>,
                                      i: nat, d: Defect)
    requires Consistent(defects, projects, tasks, users)
    requires i < |defects| && d.Id == defects[i].Id
    ensures Consistent(defects[i := d], projects, tasks, users)
  {
    assert DefectIds(defects[i := d]) == DefectIds(defects);
  }

  /** A new project with an unused key can always be stored. */
  lemma AddProjectKeepsConsistency(defects: seq<Defect>, projects: seq<Project>, tasks: seq<Task>, users: seq<User>, p: Project)
    requires Consistent(defects, projects, tasks, users)
    requires p.Id !in ProjectIds(projects)
    ensures Consistent(defects, projects + [p], tasks, users)
  {
    assert ProjectIds(projects + [p]) == ProjectIds(projects) + [p.Id];
  }

  /** A project row rewritten under its own key can always be stored. */
  lemma ReplaceProjectKeepsConsistency(defects: seq<Defect>, projects: seq<Project>, tasks: seq<Task>, users: seq<User>,
                                       i: nat, p: Project)
    requires Consistent(defects, projects, tasks, users)
    requires i < |projects| && p.Id == projects[i].Id
    ensures Consistent(defects, projects[i := p], tasks, users)
  {
    assert ProjectIds(projects[i := p]) == ProjectIds(projects);
  }

  /** The store: the four DbSets of ApplicationContext, each a table in store order. */
  class ApplicationContext {
    var Defects: seq<Defect>
    var Projects: seq<Project>
    var Tasks: seq<Task>
    var Users: seq<User>

    ghost predicate Valid()
      reads this
    {
      Consistent(Defects, Projects, Tasks, Users)
    }

    /** A freshly created, empty database. */
    constructor ()
      ensures Valid()
      ensures Defects == [] && Projects == [] && Tasks == [] && Users == []
    {
      Defects, Projects, Tasks, Users := [], [], [], [];
    }

    /** SaveChangesAsync: the staged tables replace the stored ones in one atomic
        step if the database accepts them; otherwise the call fails (a 500 for the
        controller) and nothing is stored. */
    method SaveChanges(defects: seq<Defect>, projects: seq<Project>, tasks: seq<Task>, users: seq<User>)
      returns (saved: bool)
      requires Valid()
      modifies this
      ensures Valid()
      ensures saved == Consistent(defects, projects, tasks, users)
      ensures saved ==> Defects == defects && Projects == projects && Tasks == tasks && Users == users
      ensures !saved ==> Defects == old(Defects) && Projects == old(Projects) && Tasks == old(Tasks) && Users == old(Users)
    {
      saved := Consistent(defects, projects, tasks, users);
      if saved {
        Defects, Projects, Tasks, Users := defects, projects, tasks, users;
      }
    }
  }
}
