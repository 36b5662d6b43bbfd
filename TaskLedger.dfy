/** The task version chain behind TaskController.UpdateTask: which row a new
    version is carried forward from, how the new version is built, what the
    table looks like after the update, and the one-active-row-per-defect
    invariant the chain is meant to keep. */
module TaskLedger {
  import opened Models
  import opened Tables

  /** True when the table holds some version for defect `defectId`. */
  predicate HasChain(tasks: seq<Task>, defectId: int)
  {
    exists t :: t in tasks && t.DefectId == defectId
  }

  /** `OrderByDescending(t => t.PublishedAt).FirstOrDefault(t => t.DefectId == defectId)`:
      the position of the most recently published row for the defect, whatever its
      IsActual. Among rows published at the same instant the earliest in store order
      is taken, as a stable descending sort would. */
  function LatestIndex(tasks: seq<Task>, defectId: int): (r: Option<nat>)
    ensures r.None? <==> !HasChain(tasks, defectId)
    ensures r.Some? ==> r.value < |tasks| && tasks[r.value].DefectId == defectId
    ensures r.Some? ==> forall j :: 0 <= j < |tasks| && tasks[j].DefectId == defectId ==>
      tasks[j].PublishedAt <= tasks[r.value].PublishedAt
    ensures r.Some? ==> forall j :: 0 <= j < r.value && tasks[j].DefectId == defectId ==>
      tasks[j].PublishedAt < tasks[r.value].PublishedAt
    decreases |tasks|
  {
    if |tasks| == 0 then None
    else
      var last := |tasks| - 1;
      var rest := LatestIndex(tasks[..last], defectId);
      assert forall t :: t in tasks ==> t in tasks[..last] || t == tasks[last];
      if tasks[last].DefectId != defectId then rest
      else if rest.Some? && tasks[last].PublishedAt <= tasks[rest.value].PublishedAt then rest
      else Some(last)
  }

  /** The new version UpdateTask builds from the request and the carried-forward
      row `prev`: each field supplied by the request wins, every other field is
      carried forward; it is published `now`, is the actual version, and gets key `id`. */
  function NextVersion(req: TaskRequest, prev: Task, id: int, now: Timestamp): (t: Task)
    ensures t.Id == id && t.PublishedAt == now && t.IsActual
    ensures Reachable(prev, t)
    ensures req == TaskRequest(None, None, None, None, None, None, None) ==> SameContent(t, prev)
  {
    Task(
      Id := id,
      PublishedAt := now,
      ProjectId := Coalesce(req.ProjectId, prev.ProjectId),
      DefectId := Coalesce(req.DefectId, prev.DefectId),
      ExecutorId := if req.ExecutorId.Some? then req.ExecutorId else prev.ExecutorId,
      Term := if req.Term.Some? then req.Term else prev.Term,
      Status := Coalesce(req.Status, prev.Status),
      Comments := if req.Comments.Some? then req.Comments else prev.Comments,
      Investment := Coalesce(req.Investment, prev.Investment),
      IsActual := true)
  }

  /** The seven fields a version carries (everything but Id, PublishedAt and IsActual). */
  predicate SameContent(a: Task, b: Task)
  {
    && a.ProjectId == b.ProjectId && a.DefectId == b.DefectId && a.ExecutorId == b.ExecutorId
    && a.Term == b.Term && a.Status == b.Status && a.Comments == b.Comments
    && a.Investment == b.Investment
  }

  /** The request that turns `prev` into `target` when `target` is reachable:
      every field of `target` supplied, the nullable ones only when present. */
  function Diff(target: Task): TaskRequest
  {
    TaskRequest(Some(target.ProjectId), Some(target.DefectId), target.ExecutorId,
                target.Term, Some(target.Status), target.Comments, Some(target.Investment))
  }

  /** A nullable field that is set is never cleared by an update: `??` cannot
      tell "absent" from "set to null". */
  predicate Reachable(prev: Task, target: Task)
  {
    && (prev.ExecutorId.Some? ==> target.ExecutorId.Some?)
    && (prev.Term.Some? ==> target.Term.Some?)
    && (prev.Comments.Some? ==> target.Comments.Some?)
  }

  /** Exactly the reachable contents can be produced by one update. */
  lemma NextVersionReaches(prev: Task, target: Task, id: int, now: Timestamp)
    ensures Reachable(prev, target) <==> exists req :: SameContent(NextVersion(req, prev, id, now), target)
  {
    if Reachable(prev, target) {
      assert SameContent(NextVersion(Diff(target), prev, id, now), target);
    }
  }

  /** Field by field, the new version takes the request's value when one is
      supplied and the carried-forward row's value otherwise. */
  lemma NextVersionCarriesForward(req: TaskRequest, prev: Task, id: int, now: Timestamp)
    ensures var t := NextVersion(req, prev, id, now);
      && t.Id == id && t.PublishedAt == now && t.IsActual
      && (req.ProjectId.None? ==> t.ProjectId == prev.ProjectId)
      && (req.DefectId.None? ==> t.DefectId == prev.DefectId)
      && (req.ExecutorId.None? ==> t.ExecutorId == prev.ExecutorId)
      && (req.Term.None? ==> t.Term == prev.Term)
      && (req.Status.None? ==> t.Status == prev.Status)
      && (req.Comments.None? ==> t.Comments == prev.Comments)
      && (req.Investment.None? ==> t.Investment == prev.Investment)
      && (req.ProjectId.Some? ==> t.ProjectId == req.ProjectId.value)
      && (req.DefectId.Some? ==> t.DefectId == req.DefectId.value)
      && (req.ExecutorId.Some? ==> t.ExecutorId == req.ExecutorId)
      && (req.Term.Some? ==> t.Term == req.Term)
      && (req.Status.Some? ==> t.Status == req.Status.value)
      && (req.Comments.Some? ==> t.Comments == req.Comments)
      && (req.Investment.Some? ==> t.Investment == req.Investment.value)
  {
  }

  /** An update that only supplies a status keeps the executor and the
      investment of the current version. */
  lemma CarryForwardExample(prev: Task, x: Status, id: int, now: Timestamp)
    requires prev.ExecutorId == Some(7) && prev.Investment == 100
    ensures var t := NextVersion(TaskRequest(None, None, None, None, Some(x), None, None), prev, id, now);
      t.ExecutorId == Some(7) && t.Investment == 100 && t.Status == x && t.IsActual
  {
  }

  /** The table UpdateTask commits: row `k` flipped to IsActual = false and the
      new version added at the end. */
  function Versioned(tasks: seq<Task>, k: nat, row: Task): (r: seq<Task>)
    requires k < |tasks|
    ensures |r| == |tasks| + 1
    ensures r[k] == tasks[k].(IsActual := false)
    ensures r[|tasks|] == row
    ensures forall i :: 0 <= i < |tasks| && i != k ==> r[i] == tasks[i]
  {
    tasks[k := tasks[k].(IsActual := false)] + [row]
  }

  /** The staged task table of UpdateTask(req, defectId) at time `now`, or None
      when there is nothing to carry forward (the 404). The new row gets the next
      identity key. */
  function StageUpdate(tasks: seq<Task>, req: TaskRequest, defectId: int, now: Timestamp): (r: Option<seq<Task>>)
    ensures r.None? <==> !HasChain(tasks, defectId)
    ensures r.Some? ==> |r.value| == |tasks| + 1
  {
    match LatestIndex(tasks, defectId)
    case None => None
    case Some(k) => Some(Versioned(tasks, k, NextVersion(req, tasks[k], FreshKey(TaskIds(tasks)), now)))
  }

  /** An update grows the table by exactly one row, retires the carried-forward
      row and changes no other pre-existing row. */
  lemma StageUpdateShape(tasks: seq<Task>, req: TaskRequest, defectId: int, now: Timestamp)
    requires HasChain(tasks, defectId)
    ensures var k := LatestIndex(tasks, defectId).value;
      var r := StageUpdate(tasks, req, defectId, now).value;
      && |r| == |tasks| + 1
      && !r[k].IsActual
      && r[k] == tasks[k].(IsActual := false)
      && (forall i :: 0 <= i < |tasks| && i != k ==> r[i] == tasks[i])
      && r[|tasks|] == NextVersion(req, tasks[k], FreshKey(TaskIds(tasks)), now)
      && r[|tasks|].Id !in TaskIds(tasks)
  {
  }

  // The single-active-version invariant of the chain.

  /** Some version of defect `defectId` is the actual one. */
  predicate HasActive(tasks: seq<Task>, defectId: int)
  {
    exists j :: 0 <= j < |tasks| && tasks[j].IsActual && tasks[j].DefectId == defectId
  }

  /** No two actual versions for one defect. */
  predicate SingleActive(tasks: seq<Task>)
  {
    forall i, j ::
      (0 <= i < |tasks| && 0 <= j < |tasks| && tasks[i].IsActual && tasks[j].IsActual
       && tasks[i].DefectId == tasks[j].DefectId) ==> i == j
  }

  /** An actual version was published strictly after every other version of its defect. */
  predicate ActiveIsLatest(tasks: seq<Task>)
  {
    forall i, j ::
      (0 <= i < |tasks| && 0 <= j < |tasks| && i != j && tasks[i].IsActual
       && tasks[j].DefectId == tasks[i].DefectId) ==> tasks[j].PublishedAt < tasks[i].PublishedAt
  }

  /** Every defect that has versions has an actual one. */
  predicate EveryChainActive(tasks: seq<Task>)
  {
    forall i :: 0 <= i < |tasks| ==> HasActive(tasks, tasks[i].DefectId)
  }

  /** The ledger invariant: per defect, exactly one actual version, and it is the latest. */
  predicate LedgerInvariant(tasks: seq<Task>)
  {
    ActiveIsLatest(tasks) && EveryChainActive(tasks)
  }

  lemma LedgerInvariantSingleActive(tasks: seq<Task>)
    requires LedgerInvariant(tasks)
    ensures SingleActive(tasks)
  {
  }

  /** Under the ledger invariant the row UpdateTask carries forward is the actual one,
      so the commented-out IsActual check at TaskController.cs:94-98 could never fire. */
  lemma LatestIsActive(tasks: seq<Task>, defectId: int)
    requires LedgerInvariant(tasks)
    requires HasChain(tasks, defectId)
    ensures tasks[LatestIndex(tasks, defectId).value].IsActual
  {
    var k := LatestIndex(tasks, defectId).value;
    assert HasActive(tasks, tasks[k].DefectId);
    var a :| 0 <= a < |tasks| && tasks[a].IsActual && tasks[a].DefectId == defectId;
    assert tasks[a].PublishedAt <= tasks[k].PublishedAt;
    assert a == k;
  }

  /** Deleting any set of rows keeps every remaining actual row the latest of its defect. */
  lemma FilterKeepsActiveLatest(tasks: seq<Task>, keep: Task -> bool)
    requires ActiveIsLatest(tasks)
    ensures ActiveIsLatest(Filter(tasks, keep))
  {
    var r := Filter(tasks, keep);
    forall i, j | 0 <= i < |r| && 0 <= j < |r| && i != j && r[i].IsActual && r[j].DefectId == r[i].DefectId
      ensures r[j].PublishedAt < r[i].PublishedAt
    {
      if i < j { FilterOriginIncreasing(tasks, keep, i, j); } else { FilterOriginIncreasing(tasks, keep, j, i); }
      var a, b := FilterOrigin(tasks, keep, i), FilterOrigin(tasks, keep, j);
      assert a != b && tasks[a] == r[i] && tasks[b] == r[j];
    }
  }

  /** If the carried-forward row was the defect's only actual row and the request
      leaves DefectId alone (absent or equal), then after the update the new row is
      the defect's only actual row. */
  lemma UpdateKeepsSoleActive(tasks: seq<Task>, req: TaskRequest, defectId: int, now: Timestamp)
    requires HasChain(tasks, defectId)
    requires var k := LatestIndex(tasks, defectId).value;
      tasks[k].IsActual &&
      forall i :: 0 <= i < |tasks| && tasks[i].IsActual && tasks[i].DefectId == defectId ==> i == k
    requires req.DefectId.None? || req.DefectId == Some(defectId)
    ensures var r := StageUpdate(tasks, req, defectId, now).value;
      forall i :: 0 <= i < |r| ==> (r[i].IsActual && r[i].DefectId == defectId <==> i == |tasks|)
  {
    var k := LatestIndex(tasks, defectId).value;
    var r := StageUpdate(tasks, req, defectId, now).value;
    assert r == Versioned(tasks, k, NextVersion(req, tasks[k], FreshKey(TaskIds(tasks)), now));
  }

  /** The update with the new version kept on the chain of the route's defect:
      DefectId cannot be moved by the request. */
  function StageAppend(tasks: seq<Task>, req: TaskRequest, defectId: int, now: Timestamp): (r: Option<seq<Task>>)
    ensures r.None? <==> !HasChain(tasks, defectId)
    ensures r.Some? ==> |r.value| == |tasks| + 1 && r.value[|tasks|].DefectId == defectId
  {
    StageUpdate(tasks, req.(DefectId := None), defectId, now)
  }

  /** Appending an actual version of the defect of the actual row `k`, published
      after every existing row, keeps every actual row the latest of its defect. */
  lemma VersionedKeepsActiveLatest(tasks: seq<Task>, k: nat, row: Task)
    requires k < |tasks| && tasks[k].IsActual
    requires ActiveIsLatest(tasks) && SingleActive(tasks)
    requires row.IsActual && row.DefectId == tasks[k].DefectId
    requires forall t :: t in tasks ==> t.PublishedAt < row.PublishedAt
    ensures ActiveIsLatest(Versioned(tasks, k, row))
  {
    var r := Versioned(tasks, k, row);
    var n := |tasks|;
    forall i, j | 0 <= i < |r| && 0 <= j < |r| && i != j && r[i].IsActual && r[j].DefectId == r[i].DefectId
      ensures r[j].PublishedAt < r[i].PublishedAt
    {
      if i == n {
        assert tasks[j] in tasks && r[j].PublishedAt == tasks[j].PublishedAt;
      } else {
        assert i != k && r[i] == tasks[i];
        assert tasks[i].DefectId != row.DefectId;
        assert j < n && r[j].PublishedAt == tasks[j].PublishedAt && r[j].DefectId == tasks[j].DefectId;
      }
    }
  }

  /** Appending an actual version of the defect of row `k` leaves every chain with an actual row. */
  lemma VersionedKeepsChainsActive(tasks: seq<Task>, k: nat, row: Task)
    requires k < |tasks|
    requires EveryChainActive(tasks)
    requires row.IsActual && row.DefectId == tasks[k].DefectId
    ensures EveryChainActive(Versioned(tasks, k, row))
  {
    var r := Versioned(tasks, k, row);
    var n := |tasks|;
    forall i | 0 <= i < |r| ensures HasActive(r, r[i].DefectId) {
      if i == n || r[i].DefectId == row.DefectId {
        assert r[n].IsActual && r[n].DefectId == row.DefectId;
      } else {
        var e := r[i].DefectId;
        assert e == tasks[i].DefectId;
        assert HasActive(tasks, e);
        var a :| 0 <= a < n && tasks[a].IsActual && tasks[a].DefectId == e;
        assert a != k && r[a] == tasks[a];
      }
    }
  }

  /** With the request's DefectId ignored and a clock that moves forward, an
      update keeps the ledger invariant. */
  lemma AppendKeepsLedger(tasks: seq<Task>, req: TaskRequest, defectId: int, now: Timestamp)
    requires LedgerInvariant(tasks)
    requires HasChain(tasks, defectId)
    requires forall t :: t in tasks ==> t.PublishedAt < now
    ensures LedgerInvariant(StageAppend(tasks, req, defectId, now).value)
  {
    var k := LatestIndex(tasks, defectId).value;
    var row := NextVersion(req.(DefectId := None), tasks[k], FreshKey(TaskIds(tasks)), now);
    assert StageAppend(tasks, req, defectId, now).value == Versioned(tasks, k, row);
    LatestIsActive(tasks, defectId);
    LedgerInvariantSingleActive(tasks);
    VersionedKeepsActiveLatest(tasks, k, row);
    VersionedKeepsChainsActive(tasks, k, row);
  }

  /** A request that names another defect splits the chains: from two defects that
      each have one actual version, the update leaves the first defect with none
      and the second with two. */
  lemma UpdateTaskCanSplitChain()
    ensures var tasks := [Task(1, 10, 1, 1, None, None, 0, None, 0, true),
                          Task(2, 10, 1, 2, None, None, 0, None, 0, true)];
      var req := TaskRequest(None, Some(2), None, None, None, None, None);
      var r := StageUpdate(tasks, req, 1, 20).value;
      && LedgerInvariant(tasks)
      && !SingleActive(r)
      && !HasActive(r, 1)
      && HasChain(r, 1)
  {
    var tasks := [Task(1, 10, 1, 1, None, None, 0, None, 0, true),
                  Task(2, 10, 1, 2, None, None, 0, None, 0, true)];
    var req := TaskRequest(None, Some(2), None, None, None, None, None);
    assert HasActive(tasks, 1) by { assert tasks[0].IsActual; }
    assert HasActive(tasks, 2) by { assert tasks[1].IsActual; }
    assert LatestIndex(tasks[..1], 1) == Some(0);
    assert LatestIndex(tasks, 1) == Some(0);
    var r := StageUpdate(tasks, req, 1, 20).value;
    assert r == Versioned(tasks, 0, NextVersion(req, tasks[0], FreshKey(TaskIds(tasks)), 20));
    assert r[1].IsActual && r[2].IsActual && r[1].DefectId == r[2].DefectId;
    assert r[0] in r;
  }
}
