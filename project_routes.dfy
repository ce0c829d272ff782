/**
 * The project endpoints of api/routes/project.py as store-level operations
 * that return a result: a lookup, an early 404, then the store mutation.
 */
module ProjectRoutes {
  import opened Common
  import opened Models
  import opened Store
  import opened Deps
  import opened TaskCrud

  function ApplyProject(p: Project, changes: seq<ProjectField>): Project
  {
    Apply(SetProjectField, p, changes)
  }

  /** What an UpdateProject payload does: each field the client sent is written, each one it left out stays. */
  lemma ProjectChangesEffect(p: Project, u: UpdateProject)
    requires !ProjectWritesNull(u)
    ensures ApplyProject(p, ProjectChanges(u)) ==
            Project(if u.name.Given? then u.name.value.value else p.name,
                    if u.description.Given? then u.description.value.value else p.description)
  {
    var a := if u.description.Given? then [ProjectDescriptionField(u.description.value.value)] else [];
    var b := if u.name.Given? then [NameField(u.name.value.value)] else [];
    ApplyAppend(SetProjectField, p, a, b);
    assert a == [] || a[..0] == [];
    assert b == [] || b[..0] == [];
  }

  /** A payload that sends nothing leaves the stored row exactly as it was. */
  lemma NothingSentChangesNothing(row: Row<Project>, now: int)
    ensures Updated(row, ApplyProject(row.rec, ProjectChanges(UpdateProject(Omitted, Omitted))), now) == row
  {
    assert ProjectChanges(UpdateProject(Omitted, Omitted)) == [];
    EmptyUpdateIsIdentity(SetProjectField, row, now);
  }

  /** GET /project/: 400 for bad pagination, otherwise the skip/limit window over all projects in engine order. */
  method ListProjects(projects: Table<Project>, skip: int, limit: int) returns (r: Result<seq<Row<Project>>>)
    requires projects.Valid()
    ensures r.Err? <==> skip < 0 || limit <= 0
    ensures r.Err? ==> r.error == BadRequest
    ensures r.Ok? ==> skip >= 0 && limit > 0 && |r.value| <= limit && r.value == Window(projects.Rows(), skip, limit)
  {
    var page := Pagination(skip, limit);
    if page.Err? {
      return Err(page.error);
    }
    var listed := projects.GetList(page.value.skip, page.value.limit, None, [], None, None);
    SelectAll(projects.Rows());
    return Ok(listed);
  }

  /** POST /project/: the stored project carries the payload's name and description (409 when the engine rejects it). */
  method PostProject(projects: Table<Project>, payload: CreateProject, now: int, accepted: bool) returns (r: Result<Row<Project>>)
    requires projects.Valid()
    modifies projects
    ensures projects.Valid()
    ensures !accepted ==> && r == Err(Conflict) && projects.rows == old(projects.rows) && projects.ids == old(projects.ids)
                          && projects.nextId == old(projects.nextId)
    ensures accepted ==> && r.Ok? && r.value.id == old(projects.nextId) && r.value.id !in old(projects.rows)
                         && r.value.rec.name == payload.name && r.value.rec.description == payload.description
                         && r.value.createdAt == now && r.value.updatedAt == now
                         && projects.rows == old(projects.rows)[r.value.id := r.value]
                         && projects.ids == old(projects.ids) + [r.value.id]
                         && projects.nextId == old(projects.nextId) + 1
  {
    r := projects.Create(ProjectFromCreate(payload), now, accepted);
  }

  /**
   * PATCH /project/: 404 when the project is missing; a field sent as null
   * fails the NOT NULL check at update's commit (500, nothing stored);
   * otherwise only the fields the client sent are written.
   */
  method PatchProject(projects: Table<Project>, projectId: int, payload: UpdateProject, now: int) returns (r: Result<Row<Project>>)
    requires projects.Valid()
    modifies projects
    ensures projects.Valid() && projects.ids == old(projects.ids) && projects.nextId == old(projects.nextId)
    ensures projectId !in old(projects.rows) ==> r == Err(NotFound) && projects.rows == old(projects.rows)
    ensures projectId in old(projects.rows) && ProjectWritesNull(payload) ==> r == Err(Internal) && projects.rows == old(projects.rows)
    ensures projectId in old(projects.rows) && !ProjectWritesNull(payload) ==>
              && r == Ok(Updated(old(projects.rows[projectId]), ApplyProject(old(projects.rows[projectId]).rec, ProjectChanges(payload)), now))
              && projects.rows == old(projects.rows)[projectId := r.value]
  {
    var project := projects.GetOneById(projectId, []);
    if project.None? {
      return Err(NotFound);
    }
    if ProjectWritesNull(payload) {
      return Err(Internal);
    }
    var updated := projects.Update(projectId, ProjectChanges(payload), SetProjectField, now);
    return Ok(updated);
  }

  /** GET /project/{project_id}: the stored project, or 404. */
  method GetProject(projects: Table<Project>, projectId: int) returns (r: Result<Row<Project>>)
    requires projects.Valid()
    ensures r.Err? <==> projectId !in projects.rows
    ensures r.Err? ==> r.error == NotFound
    ensures r.Ok? ==> r.value == projects.rows[projectId] && r.value.id == projectId
  {
    var project := projects.GetOneById(projectId, []);
    if project.None? {
      return Err(NotFound);
    }
    return Ok(project.value);
  }

  /**
   * A task row after its project is deleted. No cascade is declared on the
   * relationship, so the flush of the delete sets project_id to NULL on each
   * task of that project, and updated_at moves to now; other tasks stay.
   */
  function Detach(row: Row<Task>, projectId: int, now: int): Row<Task>
  {
    if row.rec.projectId == Some(projectId) then Updated(row, ApplyTask(row.rec, [ProjectIdField(None)]), now) else row
  }

  /** What detaching does to one row: only project_id and updated_at change, and only for a task of that project. */
  lemma DetachEffect(row: Row<Task>, projectId: int, now: int)
    ensures Detach(row, projectId, now).id == row.id && Detach(row, projectId, now).createdAt == row.createdAt
    ensures Detach(row, projectId, now).rec == row.rec.(projectId := if row.rec.projectId == Some(projectId) then None else row.rec.projectId)
    ensures Detach(row, projectId, now).updatedAt == if row.rec.projectId == Some(projectId) then now else row.updatedAt
    ensures Detach(row, projectId, now).rec.projectId != Some(projectId)
    ensures Detach(Detach(row, projectId, now), projectId, now) == Detach(row, projectId, now)
  {
    var change := [ProjectIdField(None)];
    assert change[..0] == [];
    assert ApplyTask(row.rec, change) == row.rec.(projectId := None);
  }

  /** The tasks table after a project is deleted: every row detached from it. */
  function DetachAll(rows: map<int, Row<Task>>, projectId: int, now: int): (r: map<int, Row<Task>>)
    ensures r.Keys == rows.Keys
    ensures forall k :: k in r ==> r[k].rec.projectId != Some(projectId)
    ensures forall k :: k in r && rows[k].rec.projectId != Some(projectId) ==> r[k] == rows[k]
  {
    var r := map k | k in rows :: Detach(rows[k], projectId, now);
    assert forall k :: k in r ==> r[k].rec.projectId != Some(projectId) by {
      forall k | k in r ensures r[k].rec.projectId != Some(projectId) {
        DetachEffect(rows[k], projectId, now);
      }
    }
    r
  }

  /** The rows of the table with the keys in ids detached, the others as before. */
  ghost predicate DetachedAt(before: map<int, Row<Task>>, after: map<int, Row<Task>>, ids: seq<int>, projectId: int, now: int)
  {
    && after.Keys == before.Keys
    && forall k :: k in after ==> after[k] == if k in ids then Detach(before[k], projectId, now) else before[k]
  }

  /** The flush's pass over the tasks: each task of the project, in turn, gets project_id NULL. */
  method DetachTasks(tasks: Table<Task>, projectId: int, now: int)
    requires tasks.Valid()
    modifies tasks
    ensures tasks.Valid() && tasks.ids == old(tasks.ids) && tasks.nextId == old(tasks.nextId)
    ensures tasks.rows == DetachAll(old(tasks.rows), projectId, now)
  {
    ghost var before := tasks.rows;
    var keys := tasks.ids;
    var i := 0;
    while i < |keys|
      invariant 0 <= i <= |keys|
      invariant tasks.Valid() && tasks.ids == keys == old(tasks.ids) && tasks.nextId == old(tasks.nextId)
      invariant DetachedAt(before, tasks.rows, keys[..i], projectId, now)
    {
      var k := keys[i];
      assert k in keys;
      var current := tasks.rows[k];
      DetachEffect(before[k], projectId, now);
      if current.rec.projectId == Some(projectId) {
        var _ := tasks.Update(k, [ProjectIdField(None)], SetTaskField, now);
      }
      assert tasks.rows[k] == Detach(current, projectId, now);
      assert keys[..i + 1] == keys[..i] + [k];
      i := i + 1;
    }
    assert keys[..|keys|] == keys;
    forall k | k in tasks.rows ensures tasks.rows[k] == DetachAll(before, projectId, now)[k] {
      assert k in keys;
    }
  }

  /**
   * DELETE /project/: 404 when the project is missing; otherwise the project
   * row is removed and its tasks stay, detached from it.
   */
  method DeleteProject(projects: Table<Project>, tasks: Table<Task>, projectId: int, now: int) returns (r: Result<string>)
    requires projects.Valid() && tasks.Valid()
    modifies projects, tasks
    ensures projects.Valid() && tasks.Valid() && projects.nextId == old(projects.nextId)
    ensures tasks.ids == old(tasks.ids) && tasks.nextId == old(tasks.nextId)
    ensures projectId !in old(projects.rows) ==> && r == Err(NotFound)
                                                 && projects.rows == old(projects.rows) && projects.ids == old(projects.ids)
                                                 && tasks.rows == old(tasks.rows)
    ensures projectId in old(projects.rows) ==> && r == Ok("Project deleted")
                                                && projects.rows == old(projects.rows) - {projectId}
                                                && projects.ids == Without(old(projects.ids), projectId)
                                                && tasks.rows == DetachAll(old(tasks.rows), projectId, now)
  {
    var project := projects.GetOneById(projectId, []);
    if project.None? {
      return Err(NotFound);
    }
    var removed := projects.Remove(projectId);
    DetachTasks(tasks, projectId, now);
    return Ok("Project deleted");
  }

  /** Create a project, delete it, then look it up: the lookup answers 404. */
  method CreateDeleteGet(projects: Table<Project>, tasks: Table<Task>, payload: CreateProject, now: int)
    returns (created: Result<Row<Project>>, deleted: Result<string>, fetched: Result<Row<Project>>)
    requires projects.Valid() && tasks.Valid()
    modifies projects, tasks
    ensures created.Ok? && deleted == Ok("Project deleted") && fetched == Err(NotFound)
    ensures tasks.Valid() && TasksOfProject(tasks, created.value.id) == []
  {
    created := PostProject(projects, payload, now, true);
    deleted := DeleteProject(projects, tasks, created.value.id, now);
    fetched := GetProject(projects, created.value.id);
    NoTasksAfterDelete(tasks, created.value.id);
  }

  /** Once every task is detached from a project, listing the project's tasks gives nothing. */
  lemma NoTasksAfterDelete(tasks: Table<Task>, projectId: int)
    requires tasks.Valid()
    requires forall k :: k in tasks.rows ==> tasks.rows[k].rec.projectId != Some(projectId)
    ensures TasksOfProject(tasks, projectId) == []
  {
    forall x | x in tasks.Rows() ensures !Chosen(x, None, AsFilters([ProjectIs(projectId)])) {
      MatchesSingle(x.rec, ProjectIs(projectId));
    }
    SelectNone(tasks.Rows(), None, AsFilters([ProjectIs(projectId)]));
  }
}
