# Task/project backend: the CRUD layer, the overdue rule and the routes

This project models the core of a small FastAPI + SQLModel backend. The
backend stores *projects* and their *tasks*. The modelled parts are:

- `CRUDBase`, the generic store. It offers lookup by key, lookup by a list of
  keys, count, a filtered and ordered window, create, a partial update and
  remove.
- The overdue rule. A task whose due date lies before "now" gets status
  `overdue` the moment it is read, listed, created or patched.
- The request dependencies: pagination, the status filter and the due-date
  range filter.
- The project and task endpoints, which sequence those operations.

## Modules

| file | module | models |
|---|---|---|
| `common.dfy` | `Common` | `Option`, `Result`, and the HTTP errors 404, 400, 409 and 500 |
| `models.dfy` | `Models` | the status enum, the record shapes, the payloads, the field limits, and the payload-to-assignment lists |
| `store.dfy` | `Store` | `Table<R>`: one table of the store, a class whose methods change its rows |
| `deps.dfy` | `Deps` | the filter predicates and the dependencies |
| `task_crud.dfy` | `TaskCrud` | the overdue rule and the project-scoped task lists |
| `task_routes.dfy` | `TaskRoutes` | the task endpoints |
| `project_routes.dfy` | `ProjectRoutes` | the project endpoints |

### State

A table is a `Table<R>` with three fields:

- `rows`, a map from primary key to `Row(id, createdAt, updatedAt, rec)`;
- `ids`, the keys in the order the engine returns rows when no ORDER BY is given (taken to be insertion order, see "## Left out");
- `nextId`, the next key, modelled as a counter (see "## Left out").

`Valid()` says three things:

- the keys in `ids` are distinct;
- `ids` and `rows` hold the same keys;
- each row carries its own key; and every key is below `nextId`.

### What stands in for the outside world

- A commit is the point where a new table state becomes current. Rollbacks
  leave the table as it was.
- SQL filter expressions are predicates on records (`R -> bool`). Task
  filters are the `Deps.Pred` datatype.
- "Now" is a parameter.
- `datetime.fromisoformat` is the parameter `parse: string -> Option<int>`.
- Timestamps are integers.
- The integrity verdict of the engine on an insert is the parameter `accepted`.
- Uncaught exceptions are `Err(Internal)`, the 500 the
  framework answers with. Examples are `NoResultFound`, an attribute access
  on `None`, and a NOT NULL violation at commit.

## Model

| member | source | states |
|---|---|---|
| Models.ParseStatus | backend/app/models/utils.py:22-26 | a string converts to a status exactly when it is one of the four values, and the status has that value |
| Models.StatusRoundTrip | backend/app/models/utils.py:22-26 | every status survives the trip to its string and back |
| Models.StatusValuesDistinct | backend/app/models/utils.py:22-26 | two statuses with the same string value are the same status |
| Store.Select | backend/app/cruds/base.py:50-57 | the selected rows are exactly the rows of the input whose key is in the key list (if any) and that pass every filter; distinctness is kept |
| Store.SelectIntersect | backend/app/cruds/base.py:82-83 | filtering by `fs + gs` equals filtering by `fs` and then by `gs` (the filter list is a conjunction) |
| Store.SelectAppend | backend/app/cruds/base.py:82-83 | selecting from `s + t` is selecting from `s`, then from `t`: the WHERE clause keeps the rows' order |
| Store.SelectNone | backend/app/cruds/base.py:82-83 | when no row passes the WHERE clause the result is empty |
| Store.SelectAll | backend/app/cruds/base.py:80-83 | no filter and no key list select every row, in order |
| Store.Window | backend/app/cruds/base.py:81 | OFFSET/LIMIT: at most `limit` rows, exactly `min(limit, max(0, n - skip))` rows, the i-th being row `skip + i` |
| Store.WindowMembers | backend/app/cruds/base.py:81 | every row of a window is a row of the input |
| Store.ConsecutivePages | backend/app/cruds/base.py:81 | two consecutive windows of size n are together the window of size 2n |
| Store.TenRowsTwoPages | backend/app/tests/api/routes/task.py:92-106 | over ten rows, `skip=0&limit=5` and `skip=5&limit=5` each give five rows, and together they give all ten, in order |
| Store.SortBy | backend/app/cruds/base.py:84-89 | the result is ordered by the key (ascending or descending) and is a permutation of the input |
| Store.RowsOf | backend/app/cruds/base.py:90-91 | the rows of a table in the order of `ids`: the i-th row is the stored row of the i-th key, so exactly the stored rows, each once |
| Store.Arranged | backend/app/cruds/base.py:84-89 | ORDER BY: a permutation of the rows, ordered by the key (ascending only for `"asc"`) when one is given, the rows untouched otherwise |
| Store.Table.constructor | backend/app/cruds/base.py:16-25 | a new table is empty and valid |
| Store.Table.Rows | backend/app/cruds/base.py:90-91 | the listed rows are exactly the stored rows, each once |
| Store.Table.GetOneById | backend/app/cruds/base.py:27-40 | a row comes back iff the key is stored and the row passes every filter, and then it is the stored row |
| Store.Table.GetManyByIds | backend/app/cruds/base.py:42-57 | exactly the stored rows whose key is in the list and that pass every filter, each once |
| Store.Table.GetCount | backend/app/cruds/base.py:59-66 | the count is the number of stored rows |
| Store.Table.GetList | backend/app/cruds/base.py:68-91 | without a query: exactly the skip/limit window of the stored rows that pass every filter, sorted first when an order column is given; so at most `limit` rows. Every returned row is stored and passes the filters (and the query). With a query, modelled as a WHERE predicate, every stored row passing filters and query is returned, and skip/limit are ignored. With an order column, the rows are ordered: ascending only for `"asc"`, descending otherwise |
| Store.Table.Create | backend/app/cruds/base.py:94-117 | a rejected insert gives 409 and leaves the table unchanged. An accepted one stores the record under the fresh key `nextId`, with both timestamps at now, appended to the row order |
| Store.Table.Update | backend/app/cruds/base.py:119-140 | the stored row becomes the record after the field assignments in order, and no other row changes. updated_at moves to now only if a column changed |
| Store.Table.Remove | backend/app/cruds/base.py:142-152 | a missing key gives 500 and no change. Otherwise the old row is returned and exactly that key leaves the table and the row order |
| Store.ApplyAppend | backend/app/cruds/base.py:134-135 | assigning `a + b` is assigning `a` and then `b` |
| Store.EmptyUpdateIsIdentity | backend/app/models/utils.py:15-19 | an update without fields leaves the row, updated_at included, exactly as it was |
| Deps.AsFilters | backend/app/api/deps.py:36 | a record passes the converted filters exactly when it matches every task predicate |
| Deps.MatchesAllAppend | backend/app/api/deps.py:54-63 | a task matches `a + b` iff it matches `a` and matches `b` |
| Deps.Pagination | backend/app/api/deps.py:22-28 | 400 exactly when skip < 0 or limit <= 0; otherwise exactly the given skip and limit |
| Deps.DefaultPaginationAccepted | backend/app/models/utils.py:28-30 | the defaults 0 and 100 pass the check unchanged |
| Deps.StatusFilter | backend/app/api/deps.py:31-36 | no predicate without a status. One predicate with a status, and a task matches it iff its stored status equals the status |
| Deps.DueDatePredicates | backend/app/api/deps.py:38-52 | 400 exactly when a given bound does not parse. Otherwise there is one predicate per given (non-empty) bound, and a task matches iff it has a due date within both inclusive bounds |
| Deps.DueDateFilter | backend/app/api/deps.py:38-52 | the two conditional appends of get_due_date_filter compute `DueDatePredicates` |
| Deps.TaskFilters | backend/app/api/deps.py:54-63 | the status predicates then the due-date predicates; a task matches iff it matches both groups |
| Deps.TaskPredicates | backend/app/api/deps.py:54-63 | the endpoint's filter list fails exactly when the due-date filter fails. A task matches it iff it has the status (if one is given) and is within the due-date bounds |
| Deps.DueDateRangeExample | backend/app/tests/api/routes/task.py:66-90 | with due dates on 2022-01-01, 2022-01-15 and 2022-02-01: from 2022-01-10 keeps two, to 2022-01-20 keeps two, both keep one |
| TaskCrud.RefreshRowEffect | backend/app/cruds/task.py:13-27 | a past-due task gets status OVERDUE whatever it had, COMPLETED included. No other column, nor the key or created_at, changes. updated_at moves to now exactly when the status changed. A task without a due date, or not yet due, is untouched |
| TaskCrud.RefreshIdempotent | backend/app/cruds/task.py:13-27 | at the same time, applying the rule twice equals applying it once |
| TaskCrud.FilterSeesStoredStatus | backend/app/cruds/task.py:29-49 | filters test the stored status before the rule: a past-due TODO task selected by `status=todo` comes back OVERDUE |
| TaskCrud.TaskChangesEffect | backend/app/models/task.py:30-37 | an UpdateTask always writes description, title and status; it writes due_date only when sent; project_id stays |
| TaskCrud.UpdateKeepsFieldLimits | backend/app/models/base.py:8-18 | a task within its length limits stays within them after a valid patch and the rule |
| TaskCrud.RefreshedStep | backend/app/cruds/task.py:45-47 | running the rule once more on an already refreshed key gives the once-refreshed row |
| TaskCrud.StatusUpdate | backend/app/cruds/task.py:13-27 | no task gives 500. Otherwise the result is the task after the rule, stored under its key, with nothing else changed |
| TaskCrud.RefreshAll | backend/app/cruds/task.py:45-47 | the rule on each task of a page keeps the page's keys and their order |
| TaskCrud.RefreshAllIdempotent | backend/app/cruds/task.py:45-47 | listing the same page twice at the same time gives what listing it once gives |
| TaskCrud.ProjectPage | backend/app/cruds/task.py:37-42 | exactly the skip/limit window of the stored tasks of the project that match every filter; so at most `limit` rows, each stored, of the project and matching |
| TaskCrud.ListWithUpdate | backend/app/cruds/task.py:29-49 | the result is the rule applied to each row of the page, with the page's length, keys and order. Exactly the page's rows are rewritten in the table |
| TaskCrud.RefreshEach | backend/app/cruds/task.py:45-48 | the loop over the page: the same result and table change, row by row |
| TaskCrud.TasksOfProject | backend/app/cruds/task.py:10-11 | exactly the stored tasks of the project |
| TaskRoutes.ListTasks | backend/app/api/routes/task.py:14-40 | 400 exactly when pagination or the due-date filter fails, and then the table is unchanged. Otherwise the refreshed project page for the combined filters, at most `limit` rows |
| TaskRoutes.PostTask | backend/app/api/routes/task.py:43-78 | 404 (missing project) and 409 leave the tasks unchanged. Otherwise the task is inserted under the next key (appended, the key counter moves by one), it carries the query's project_id, and its status is OVERDUE when past due, the submitted one otherwise |
| TaskRoutes.PatchTask | backend/app/api/routes/task.py:81-117 | 404 on a missing task. 500 with nothing stored when title or description is null. Otherwise the payload is written and then the rule runs |
| TaskRoutes.PatchStatusOutcome | backend/app/api/routes/task.py:81-117 | after a patch the status is the sent one, unless the updated task is past due, when it is OVERDUE; key, project and created_at stay |
| TaskRoutes.GetTask | backend/app/api/routes/task.py:120-149 | as written: a missing task gives 500, not 404. An existing one comes back after the rule, which is stored |
| TaskRoutes.GetTaskChecked | backend/app/api/routes/task.py:120-149 | corrected: a missing task gives 404 and no change; an existing one as above |
| TaskRoutes.DeleteTask | backend/app/api/routes/task.py:152-177 | as written: a missing task gives 404; an existing one gives 500; nothing is removed |
| TaskRoutes.DeleteTaskCorrected | backend/app/api/routes/task.py:152-177 | corrected: a missing task gives 404. Otherwise "Task deleted": exactly that key leaves the table and the row order, the key counter stays, and the task is no longer found |
| TaskRoutes.PostThenGet | backend/app/api/routes/task.py:43-78 | a created task read back later has the submitted title and description, and status OVERDUE iff its due date lies before the later time, the submitted status otherwise |
| ProjectRoutes.ProjectChangesEffect | backend/app/models/project.py:16-18 | an UpdateProject writes exactly the fields that were sent; the others stay |
| ProjectRoutes.NothingSentChangesNothing | backend/app/models/project.py:16-18 | a patch that sends no field leaves the project row, updated_at included, unchanged |
| ProjectRoutes.ListProjects | backend/app/api/routes/project.py:12-32 | 400 exactly on bad pagination; otherwise the skip/limit window over all projects in row order |
| ProjectRoutes.PostProject | backend/app/api/routes/project.py:35-55 | a rejected insert gives 409 and no change. Otherwise a new project with the payload's name and description under the next key, appended to the row order, and the key counter moves by one |
| ProjectRoutes.PatchProject | backend/app/api/routes/project.py:58-87 | 404 on a missing project. 500 and nothing stored when a field is sent as null. Otherwise exactly the sent fields are written |
| ProjectRoutes.GetProject | backend/app/api/routes/project.py:90-114 | 404 exactly when the project is missing; otherwise the stored project |
| ProjectRoutes.DeleteProject | backend/app/api/routes/project.py:117-145 | 404 on a missing project, and nothing changes. Otherwise "Project deleted": exactly that key leaves the projects and their order, and every task of the project stays with project_id NULL |
| ProjectRoutes.CreateDeleteGet | backend/app/tests/api/routes/project.py:56-67 | create, delete, then get: the get answers 404, and no task belongs to the project any more |
| ProjectRoutes.DetachEffect | backend/app/models/task.py:12-13 | on a project's deletion a task of it gets project_id NULL and updated_at now; nothing else changes, other tasks stay; doing it twice is doing it once |
| ProjectRoutes.DetachAll | backend/app/cruds/base.py:150-151 | after the delete no task refers to the project; tasks of other projects are unchanged; no task is removed |
| ProjectRoutes.DetachTasks | backend/app/cruds/base.py:150-151 | the flush's pass over the tasks computes `DetachAll` and keeps keys and order |
| ProjectRoutes.NoTasksAfterDelete | backend/app/cruds/task.py:10-11 | once no task refers to a project, its task list is empty |

## Left out

- Sessions, `get_db`, `refresh` and the session identity map are left out. A
  commit is the point where state becomes current. The `internal_commit`
  flag of the overdue rule therefore changes nothing in the model, since
  `update` already commits.
- Concurrency between requests is left out: each endpoint runs alone.
- The clock and ISO-8601 parsing are parameters (`now`, `parse`), and
  timestamps are integers rather than timezone-aware datetimes.
- The engine's integrity check on insert (a foreign-key or constraint
  violation) is the verdict parameter `accepted`, not a model of the constraints.
- Store.Table.GetList: the order column is a key function to integers,
  not a column name. Ordering by strings is not modelled.
- Store.Table.GetList: an explicit query is modelled as a predicate on the
  rows. Its own ORDER BY, LIMIT, OFFSET or joins are not modelled; none of the
  modelled callers passes a query.
- Store.Table.GetList: skip and limit are `nat`. Negative values never reach
  it because the pagination dependency answers 400 first.
- Store.Table.GetOneById: a key cannot match two rows (primary key), so the
  `MultipleResultsFound` branch of `scalar_one_or_none` cannot arise.
- Store.Table.Create: the `created_by_id` argument is left out; none of the
  modelled callers pass it.
- Row order without ORDER BY: SQL promises none. The model assumes the
  engine returns rows in insertion order (`ids`). `Store.Table.Rows`,
  `ProjectRoutes.ListProjects` and the page equations of
  `Store.Table.GetList` and `TaskCrud.ProjectPage` fix the order under that
  assumption. The pages of `Store.ConsecutivePages` and
  `Store.TenRowsTwoPages` add up to the whole list only if the engine
  returns the same order on both requests.
- Store.Table.GetList: ties under ORDER BY (rows with equal order keys) keep
  their relative order in `ids`, because `Arranged` sorts stably. SQL does not
  promise any order among ties, so this too is an assumption of the model.
- Store.Table.Create: keys are modelled as a counter `nextId` that a rejected
  insert does not advance and that never hands out a key again, even after
  its row is removed. Real engines differ: a PostgreSQL sequence advances on
  a failed insert, and SQLite without AUTOINCREMENT may reuse the largest
  freed key. The contracts of `Store.Table.Create`,
  `ProjectRoutes.PostProject` and `TaskRoutes.PostTask` that name `nextId`
  hold under this counter model.
- ProjectRoutes.DeleteProject: the foreign-key nulling is modelled as the
  ORM's default for a relationship without a cascade. A database-level
  `ON DELETE` rule, which the models do not declare, is not modelled.
- The framework's request validation (422 for a too-long title, a missing
  field or an unknown status) is not modelled as a response. The limits are
  the predicates `TaskFieldsOk`, `CreateTaskOk`, `UpdateTaskOk`,
  `ProjectFieldsOk`, `CreateProjectOk` and `UpdateProjectOk`, and the
  preservation lemma `UpdateKeepsFieldLimits`.
- Response shaping (`TaskOut`, `ProjectOut`, `{"detail": ...}` bodies) is
  reduced to the returned row or the detail string.
- cruds/project.py adds nothing to `CRUDBase`; `Table<Project>` covers it.
- The test suites target endpoints and fields (`/tasks/`, PUT, 201/204,
  `TaskCreate`) that the routes do not define. Only the scenarios that match
  the routes are modelled: due-date filter counts, pagination, create/get,
  and delete/get.

## Notes on the code

- Names, titles and descriptions declare only a maximum length
  (`max_length`), no minimum, so the empty string is accepted.
- `remove` on a missing key raises from `scalar_one`, so `Store.Table.Remove`
  gives 500. delete_project looks the key up first and answers 404 before
  calling it, and so does the corrected `TaskRoutes.DeleteTaskCorrected`.
  delete_task as written calls `cruds.task.delete`, which does not exist (see
  "## Findings").

## Findings

| source | as written | input that shows it | evidently intended | confidence | as-written member | corrected member |
|---|---|---|---|---|---|---|
| backend/app/api/routes/task.py:135-148 | the overdue rule runs on the lookup result before the `if not task` check, so it reads `due_date` of `None` | GET /task/{id} for an id that is not stored: 500 instead of 404 | check for `None` first and answer 404 | not executed | TaskRoutes.GetTask | TaskRoutes.GetTaskChecked |
| backend/app/api/routes/task.py:173-177 | the route calls `cruds.task.delete`, which `CRUDBase` and `CRUDTask` do not define | DELETE /task/?task_id=k for a stored task k: 500, and the task stays | remove the task through `remove(id=...)` and answer "Task deleted" | not executed | TaskRoutes.DeleteTask | TaskRoutes.DeleteTaskCorrected |
