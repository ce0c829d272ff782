/**
 * The task endpoints of api/routes/task.py as store-level operations that
 * return a result: each handler looks rows up, exits early with an error,
 * and sequences the store's mutations and the overdue rule.
 */
module TaskRoutes {
  import opened Common
  import opened Models
  import opened Store
  import opened Deps
  import opened TaskCrud

  /**
   * GET /task/: pagination, then the filters (status, then due-date range),
   * then the project-scoped page with the rule applied to each task. An
   * unknown project gives an empty page, not an error.
   */
  method ListTasks(tasks: Table<Task>, projectId: int, skip: int, limit: int, status: Option<TaskStatus>,
                   dueDateFrom: Option<string>, dueDateTo: Option<string>, parse: string -> Option<int>, now: int)
    returns (r: Result<seq<Row<Task>>>)
    requires tasks.Valid()
    modifies tasks
    ensures tasks.Valid() && tasks.ids == old(tasks.ids) && tasks.nextId == old(tasks.nextId)
    ensures r.Err? <==> Pagination(skip, limit).Err? || TaskPredicates(status, dueDateFrom, dueDateTo, parse).Err?
    ensures r.Err? ==> r.error == BadRequest && tasks.rows == old(tasks.rows)
    ensures r.Ok? ==> && skip >= 0 && limit > 0 && |r.value| <= limit
                      && r.value == RefreshAll(old(ProjectPage(tasks, projectId, TaskPredicates(status, dueDateFrom, dueDateTo, parse).value, skip, limit)), now)
                      && RefreshedAt(old(tasks.rows), tasks.rows, RowIds(r.value), now)
  {
    var page := Pagination(skip, limit);
    if page.Err? {
      return Err(page.error);
    }
    var statusFilter := StatusFilter(status);
    var dueDateFilter := DueDateFilter(dueDateFrom, dueDateTo, parse);
    if dueDateFilter.Err? {
      return Err(dueDateFilter.error);
    }
    var filters := TaskFilters(statusFilter, dueDateFilter.value);
    var listed := ListWithUpdate(tasks, projectId, filters, page.value.skip, page.value.limit, now);
    return Ok(listed);
  }

  /**
   * POST /task/: 404 without inserting when the project does not exist;
   * otherwise the task is inserted under the query's project_id (409 when
   * the engine rejects it) and the rule runs on it at once.
   */
  method PostTask(projects: Table<Project>, tasks: Table<Task>, payload: CreateTask, projectId: int, now: int, accepted: bool)
    returns (r: Result<Row<Task>>)
    requires projects.Valid() && tasks.Valid()
    modifies tasks
    ensures tasks.Valid()
    ensures projectId !in projects.rows ==> r == Err(NotFound) && tasks.rows == old(tasks.rows) && tasks.ids == old(tasks.ids) && tasks.nextId == old(tasks.nextId)
    ensures projectId in projects.rows && !accepted ==> r == Err(Conflict) && tasks.rows == old(tasks.rows) && tasks.ids == old(tasks.ids) && tasks.nextId == old(tasks.nextId)
    ensures projectId in projects.rows && accepted ==>
              && r == Ok(RefreshRow(Row(old(tasks.nextId), now, now, TaskFromCreate(projectId, payload)), now))
              && tasks.rows == old(tasks.rows)[old(tasks.nextId) := r.value]
              && tasks.ids == old(tasks.ids) + [old(tasks.nextId)]
              && tasks.nextId == old(tasks.nextId) + 1
              && r.value.rec.projectId == Some(projectId)
              && r.value.rec.status == if PastDue(TaskFromCreate(projectId, payload), now) then Overdue else payload.status
  {
    var project := projects.GetOneById(projectId, []);
    if project.None? {
      return Err(NotFound);
    }
    var created := tasks.Create(TaskFromCreate(projectId, payload), now, accepted);
    if created.Err? {
      return Err(created.error);
    }
    r := StatusUpdate(tasks, Some(created.value), now, false);
    RefreshRowEffect(created.value, now);
  }

  /**
   * PATCH /task/{task_id}: 404 when the task is missing; a payload whose
   * title or description is null fails the NOT NULL check at update's commit
   * (500, nothing stored); otherwise the payload is written first and the
   * rule runs after it.
   */
  method PatchTask(tasks: Table<Task>, taskId: int, payload: UpdateTask, now: int) returns (r: Result<Row<Task>>)
    requires tasks.Valid()
    modifies tasks
    ensures tasks.Valid() && tasks.ids == old(tasks.ids) && tasks.nextId == old(tasks.nextId)
    ensures taskId !in old(tasks.rows) ==> r == Err(NotFound) && tasks.rows == old(tasks.rows)
    ensures taskId in old(tasks.rows) && TaskWritesNull(payload) ==> r == Err(Internal) && tasks.rows == old(tasks.rows)
    ensures taskId in old(tasks.rows) && !TaskWritesNull(payload) ==>
              && r == Ok(RefreshRow(Updated(old(tasks.rows[taskId]), ApplyTask(old(tasks.rows[taskId]).rec, TaskChanges(payload)), now), now))
              && tasks.rows == old(tasks.rows)[taskId := r.value]
  {
    var task := tasks.GetOneById(taskId, []);
    if task.None? {
      return Err(NotFound);
    }
    if TaskWritesNull(payload) {
      return Err(Internal);
    }
    var updated := tasks.Update(taskId, TaskChanges(payload), SetTaskField, now);
    r := StatusUpdate(tasks, Some(updated), now, false);
  }

  /** The payload's status stands unless the updated task is past due, in which case it ends OVERDUE (even when TODO was sent). */
  lemma PatchStatusOutcome(row: Row<Task>, u: UpdateTask, now: int)
    requires !TaskWritesNull(u)
    ensures var after := RefreshRow(Updated(row, ApplyTask(row.rec, TaskChanges(u)), now), now);
            && after.rec.status == (if PastDue(ApplyTask(row.rec, TaskChanges(u)), now) then Overdue else u.status)
            && after.rec.projectId == row.rec.projectId && after.id == row.id && after.createdAt == row.createdAt
  {
    TaskChangesEffect(row.rec, u);
    RefreshRowEffect(Updated(row, ApplyTask(row.rec, TaskChanges(u)), now), now);
  }

  /**
   * GET /task/{task_id} as written: the rule runs, with commit, before the
   * None check, so on a missing id it fails on the attribute access (500)
   * and the 404 branch is never reached.
   */
  method GetTask(tasks: Table<Task>, taskId: int, now: int) returns (r: Result<Row<Task>>)
    requires tasks.Valid()
    modifies tasks
    ensures tasks.Valid() && tasks.ids == old(tasks.ids) && tasks.nextId == old(tasks.nextId)
    ensures taskId !in old(tasks.rows) ==> r == Err(Internal) && tasks.rows == old(tasks.rows)
    ensures taskId in old(tasks.rows) ==> && r == Ok(RefreshRow(old(tasks.rows[taskId]), now))
                                          && tasks.rows == old(tasks.rows)[taskId := r.value]
  {
    var task := tasks.GetOneById(taskId, []);
    r := StatusUpdate(tasks, task, now, true);
  }

  /** GET /task/{task_id} with the None check before the rule: 404 on a missing id. */
  method GetTaskChecked(tasks: Table<Task>, taskId: int, now: int) returns (r: Result<Row<Task>>)
    requires tasks.Valid()
    modifies tasks
    ensures tasks.Valid() && tasks.ids == old(tasks.ids) && tasks.nextId == old(tasks.nextId)
    ensures taskId !in old(tasks.rows) ==> r == Err(NotFound) && tasks.rows == old(tasks.rows)
    ensures taskId in old(tasks.rows) ==> && r == Ok(RefreshRow(old(tasks.rows[taskId]), now))
                                          && tasks.rows == old(tasks.rows)[taskId := r.value]
  {
    var task := tasks.GetOneById(taskId, []);
    if task.None? {
      return Err(NotFound);
    }
    r := StatusUpdate(tasks, task, now, true);
  }

  /**
   * DELETE /task/ as written: 404 on a missing id; on an existing one it
   * calls a `delete` that the store does not have, which fails (500). Either
   * way nothing is removed.
   */
  method DeleteTask(tasks: Table<Task>, taskId: int) returns (r: Result<string>)
    requires tasks.Valid()
    ensures taskId !in tasks.rows ==> r == Err(NotFound)
    ensures taskId in tasks.rows ==> r == Err(Internal)
  {
    var task := tasks.GetOneById(taskId, []);
    if task.None? {
      return Err(NotFound);
    }
    return Err(Internal);
  }

  /** DELETE /task/ through the store's remove: 404 on a missing id, otherwise the task is gone. */
  method DeleteTaskCorrected(tasks: Table<Task>, taskId: int) returns (r: Result<string>)
    requires tasks.Valid()
    modifies tasks
    ensures tasks.Valid()
    ensures taskId !in old(tasks.rows) ==> r == Err(NotFound) && tasks.rows == old(tasks.rows) && tasks.ids == old(tasks.ids)
    ensures taskId in old(tasks.rows) ==> r == Ok("Task deleted") && tasks.rows == old(tasks.rows) - {taskId}
                                          && tasks.ids == Without(old(tasks.ids), taskId)
                                          && taskId !in tasks.rows && tasks.GetOneById(taskId, []) == None
    ensures tasks.nextId == old(tasks.nextId)
  {
    var task := tasks.GetOneById(taskId, []);
    if task.None? {
      return Err(NotFound);
    }
    var removed := tasks.Remove(taskId);
    return Ok("Task deleted");
  }

  /**
   * Create a task, then read it back at a later time: the read answers with
   * status OVERDUE exactly when the due date lies before the later time, and
   * with the submitted status otherwise.
   */
  method PostThenGet(projects: Table<Project>, tasks: Table<Task>, payload: CreateTask, projectId: int, now: int, later: int)
    returns (created: Result<Row<Task>>, fetched: Result<Row<Task>>)
    requires projects.Valid() && tasks.Valid() && projectId in projects.rows && now <= later
    modifies tasks
    ensures created.Ok? && fetched.Ok? && fetched.value.id == created.value.id
    ensures fetched.value.rec.status == if PastDue(TaskFromCreate(projectId, payload), later) then Overdue else payload.status
    ensures fetched.value.rec.title == payload.title && fetched.value.rec.description == payload.description
  {
    created := PostTask(projects, tasks, payload, projectId, now, true);
    fetched := GetTask(tasks, created.value.id, later);
    RefreshRowEffect(Row(created.value.id, now, now, TaskFromCreate(projectId, payload)), now);
    RefreshRowEffect(created.value, later);
  }
}
