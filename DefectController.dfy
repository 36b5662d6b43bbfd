/** The actions of Controllers/DefectController.cs. */
module DefectController {
  import opened Models
  import opened Tables
  import opened Context
  import opened TaskLedger

  /** GET /defects: the whole table, in store order. */
  function GetAllDefects(defects: seq<Defect>): (r: seq<Defect>)
    ensures |r| == |defects|
    ensures forall i :: 0 <= i < |defects| ==> r[i] == defects[i]
  {
    defects
  }

  /** GET /defects/{id}: the defect with that Id, or None for the 404. */
  function GetDefectById(defects: seq<Defect>, id: int): (r: Option<Defect>)
    ensures r.None? <==> id !in DefectIds(defects)
    ensures r.Some? ==> r.value in defects && r.value.Id == id
    ensures r.Some? && UniqueKeys(DefectIds(defects)) ==> forall d :: d in defects && d.Id == id ==> d == r.value
  {
    match IndexOf(DefectIds(defects), id)
    case None => None
    case Some(i) => Some(defects[i])
  }

  /** The row POST /defects stores: Name, Description and Priority of the body
      under a new identity key; the body's Id, if any, is ignored. */
  function NewDefect(defect: Defect, defects: seq<Defect>): (d: Defect)
    ensures d.Id !in DefectIds(defects)
    ensures d.(Id := defect.Id) == defect
  {
    Defect(Id := FreshKey(DefectIds(defects)), Name := defect.Name,
           Description := defect.Description, Priority := defect.Priority)
  }

  /** POST /defects: always Created; exactly one defect is added and nothing else changes. */
  method CreateDefect(ctx: ApplicationContext, defect: Defect) returns (outcome: Outcome)
    requires ctx.Valid()
    modifies ctx
    ensures ctx.Valid()
    ensures outcome == Created
    ensures ctx.Defects == old(ctx.Defects) + [NewDefect(defect, old(ctx.Defects))]
    ensures ctx.Projects == old(ctx.Projects) && ctx.Tasks == old(ctx.Tasks) && ctx.Users == old(ctx.Users)
  {
    var newDefect := NewDefect(defect, ctx.Defects);
    AddDefectKeepsConsistency(ctx.Defects, ctx.Projects, ctx.Tasks, ctx.Users, newDefect);
    var saved := ctx.SaveChanges(ctx.Defects + [newDefect], ctx.Projects, ctx.Tasks, ctx.Users);
    outcome := if saved then Created else ServerError;
  }

  /** The field-by-field partial update of PUT /defects/{id}. */
  function ApplyDefectRequest(d: Defect, req: DefectRequest): (r: Defect)
    ensures r.Id == d.Id
    ensures d.Priority != 0 ==> r.Priority != 0
    ensures d.Description.Some? ==> r.Description.Some?
  {
    Defect(
      Id := d.Id,
      Name := if NonEmpty(req.Name) then req.Name.value else d.Name,
      Description := if NonEmpty(req.Description) then req.Description else d.Description,
      Priority := if req.Priority != 0 then req.Priority else d.Priority)
  }

  /** The key never changes; a field changes only to the request's non-empty
      (for Priority, non-zero) value, and every such value is taken. So Priority
      never becomes 0 and a description, once set, is never cleared. */
  lemma DefectPatchFields(d: Defect, req: DefectRequest)
    ensures var r := ApplyDefectRequest(d, req);
      && r.Id == d.Id
      && (r.Name != d.Name ==> NonEmpty(req.Name)) && (NonEmpty(req.Name) ==> r.Name == req.Name.value)
      && (r.Description != d.Description ==> NonEmpty(req.Description))
      && (NonEmpty(req.Description) ==> r.Description == req.Description)
      && (r.Priority != d.Priority ==> req.Priority != 0) && (req.Priority != 0 ==> r.Priority == req.Priority)
      && (r.Priority == 0 <==> d.Priority == 0 && req.Priority == 0)
      && (NonEmpty(d.Description) ==> NonEmpty(r.Description))
      && (d.Name != "" ==> r.Name != "")
  {
  }

  /** Applying the same request twice is applying it once, and an empty request changes nothing. */
  lemma DefectPatchIdempotent(d: Defect, req: DefectRequest)
    ensures ApplyDefectRequest(ApplyDefectRequest(d, req), req) == ApplyDefectRequest(d, req)
    ensures (!NonEmpty(req.Name) && !NonEmpty(req.Description) && req.Priority == 0) ==> ApplyDefectRequest(d, req) == d
  {
  }

  /** The Defects table after a successful update (no other defect changes), or None for the 404. */
  function StageDefectUpdate(defects: seq<Defect>, id: int, req: DefectRequest): (r: Option<seq<Defect>>)
    ensures r.None? <==> id !in DefectIds(defects)
    ensures r.Some? ==> |r.value| == |defects| && DefectIds(r.value) == DefectIds(defects)
    ensures r.Some? && UniqueKeys(DefectIds(defects)) ==> forall j :: 0 <= j < |defects| ==>
      r.value[j] == if defects[j].Id == id then ApplyDefectRequest(defects[j], req) else defects[j]
  {
    match IndexOf(DefectIds(defects), id)
    case None => None
    case Some(i) =>
      var r := defects[i := ApplyDefectRequest(defects[i], req)];
      assert DefectIds(r) == DefectIds(defects);
      Some(r)
  }

  /** PUT /defects/{id}: NotFound when no defect has that Id; otherwise the partial
      update of that one defect, which the database always accepts. */
  method UpdateDefect(ctx: ApplicationContext, req: DefectRequest, id: int) returns (outcome: Outcome)
    requires ctx.Valid()
    modifies ctx
    ensures ctx.Valid()
    ensures ctx.Projects == old(ctx.Projects) && ctx.Tasks == old(ctx.Tasks) && ctx.Users == old(ctx.Users)
    ensures outcome == NotFound <==> id !in DefectIds(old(ctx.Defects))
    ensures outcome == NoContent <==> id in DefectIds(old(ctx.Defects))
    ensures outcome == NoContent ==> ctx.Defects == StageDefectUpdate(old(ctx.Defects), id, req).value
    ensures outcome == NotFound ==> ctx.Defects == old(ctx.Defects)
  {
    var existing := IndexOf(DefectIds(ctx.Defects), id);
    if existing.None? {
      return NotFound;
    }
    var i := existing.value;
    var existingDefect := ctx.Defects[i];
    var defects := ctx.Defects[i := ApplyDefectRequest(existingDefect, req)];
    ReplaceDefectKeepsConsistency(ctx.Defects, ctx.Projects, ctx.Tasks, ctx.Users, i, defects[i]);
    var saved := ctx.SaveChanges(defects, ctx.Projects, ctx.Tasks, ctx.Users);
    outcome := if saved then NoContent else ServerError;
  }

  /** The Defects and Tasks tables after DELETE /defects/{id}, or None for the 404:
      the defect removed and, by cascade, every task row of that defect. */
  function DeleteDefectTables(defects: seq<Defect>, tasks: seq<Task>, id: int): (r: Option<(seq<Defect>, seq<Task>)>)
    ensures r.None? <==> id !in DefectIds(defects)
    ensures r.Some? ==> r.value.1 == CascadeDefect(tasks, id)
  {
    match IndexOf(DefectIds(defects), id)
    case None => None
    case Some(i) => Some((RemoveAt(defects, i), CascadeDefect(tasks, id)))
  }

  /** Deleting removes exactly the defect with that Id and exactly the task rows
      that name it; every other defect and task row survives. */
  lemma DeleteDefectExactly(defects: seq<Defect>, tasks: seq<Task>, id: int)
    requires UniqueKeys(DefectIds(defects))
    requires id in DefectIds(defects)
    ensures var (defects', tasks') := DeleteDefectTables(defects, tasks, id).value;
      && |defects'| == |defects| - 1
      && id !in DefectIds(defects')
      && (forall d :: d in defects' <==> d in defects && d.Id != id)
      && (forall t :: t in tasks' <==> t in tasks && t.DefectId != id)
  {
    var i := IndexOf(DefectIds(defects), id).value;
    var defects' := RemoveAt(defects, i);
    assert DefectIds(defects') == RemoveAt(DefectIds(defects), i);
    RemoveAtKeys(DefectIds(defects), i);
    RemoveAtMembers(defects, i);
    forall d | d in defects ensures d.Id == id <==> d == defects[i] {
      var j :| 0 <= j < |defects| && defects[j] == d;
      assert DefectIds(defects)[j] == d.Id;
    }
  }

  /** The cascade removes whole chains, so deleting a defect keeps the ledger
      invariant of every other defect. */
  lemma DeleteDefectKeepsLedger(tasks: seq<Task>, id: int)
    requires LedgerInvariant(tasks)
    ensures LedgerInvariant(CascadeDefect(tasks, id))
  {
    var keep := (t: Task) => t.DefectId != id;
    var r := CascadeDefect(tasks, id);
    assert r == Filter(tasks, keep);
    FilterKeepsActiveLatest(tasks, keep);
    forall i | 0 <= i < |r| ensures HasActive(r, r[i].DefectId) {
      var e := r[i].DefectId;
      var o := FilterOrigin(tasks, keep, i);
      assert HasActive(tasks, tasks[o].DefectId);
      var a :| 0 <= a < |tasks| && tasks[a].IsActual && tasks[a].DefectId == e;
      assert tasks[a] in r;
      var b :| 0 <= b < |r| && r[b] == tasks[a];
    }
  }

  /** DELETE /defects/{id}: NotFound when no defect has that Id; otherwise the
      defect and its task rows are removed in one commit, which always succeeds. */
  method DeleteDefect(ctx: ApplicationContext, id: int) returns (outcome: Outcome)
    requires ctx.Valid()
    modifies ctx
    ensures ctx.Valid()
    ensures ctx.Projects == old(ctx.Projects) && ctx.Users == old(ctx.Users)
    ensures outcome == NotFound <==> id !in DefectIds(old(ctx.Defects))
    ensures outcome == NoContent <==> id in DefectIds(old(ctx.Defects))
    ensures outcome == NoContent ==> (ctx.Defects, ctx.Tasks) == DeleteDefectTables(old(ctx.Defects), old(ctx.Tasks), id).value
    ensures outcome == NotFound ==> ctx.Defects == old(ctx.Defects) && ctx.Tasks == old(ctx.Tasks)
  {
    var existing := IndexOf(DefectIds(ctx.Defects), id);
    if existing.None? {
      return NotFound;
    }
    var i := existing.value;
    DeleteDefectKeepsConsistency(ctx.Defects, ctx.Projects, ctx.Tasks, ctx.Users, i);
    var saved := ctx.SaveChanges(RemoveAt(ctx.Defects, i), ctx.Projects, CascadeDefect(ctx.Tasks, id), ctx.Users);
    outcome := if saved then NoContent else ServerError;
  }
}
