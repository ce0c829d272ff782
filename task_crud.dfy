/**
 * The task-specific store operations of cruds/task.py: the overdue rule
 * (get_status_update) and the project-scoped lists.
 *
 * "Now" is a parameter. A commit is the point where a new table state
 * becomes current; update already commits, so the internal_commit flag of
 * the rule changes nothing in the model's state.
 */
module TaskCrud {
  import opened Common
  import opened Models
  import opened Store
  import opened Deps

  /** The task has a due date strictly before now. */
  predicate PastDue(t: Task, now: int)
  {
    t.dueDate.Some? && t.dueDate.value < now
  }

  /** The task's columns after the `setattr` calls of changes. */
  function ApplyTask(t: Task, changes: seq<TaskField>): Task
  {
    Apply(SetTaskField, t, changes)
  }

  /** The one change the rule writes. */
  const MarkOverdue: seq<TaskField> := [StatusField(Overdue)]

  /** The stored row after the overdue rule: the update to OVERDUE when it is past due, the row itself otherwise. */
  function RefreshRow(row: Row<Task>, now: int): Row<Task>
  {
    if PastDue(row.rec, now) then Updated(row, ApplyTask(row.rec, MarkOverdue), now) else row
  }

  /**
   * What the rule does to a row: a past-due task gets status OVERDUE whatever
   * its status was (a COMPLETED one too); nothing else of the task, nor its
   * key or created_at, changes; updated_at moves to now exactly when the
   * status actually changed; a task without a due date or not yet due is left
   * exactly as it was.
   */
  lemma RefreshRowEffect(row: Row<Task>, now: int)
    ensures RefreshRow(row, now).id == row.id && RefreshRow(row, now).createdAt == row.createdAt
    ensures RefreshRow(row, now).rec == row.rec.(status := if PastDue(row.rec, now) then Overdue else row.rec.status)
    ensures RefreshRow(row, now).updatedAt == if PastDue(row.rec, now) && row.rec.status != Overdue then now else row.updatedAt
    ensures !PastDue(row.rec, now) ==> RefreshRow(row, now) == row
  {
    assert MarkOverdue[..0] == [];
    assert ApplyTask(row.rec, MarkOverdue) == row.rec.(status := Overdue);
  }

  /** With the same now, applying the rule twice gives what applying it once gives. */
  lemma RefreshIdempotent(row: Row<Task>, now: int)
    ensures RefreshRow(RefreshRow(row, now), now) == RefreshRow(row, now)
  {
    RefreshRowEffect(row, now);
    RefreshRowEffect(RefreshRow(row, now), now);
  }

  /** Filters see the stored status: a TODO task selected by status=todo can come back OVERDUE. */
  lemma FilterSeesStoredStatus(row: Row<Task>, now: int)
    requires row.rec.status == Todo && PastDue(row.rec, now)
    ensures MatchesAll(row.rec, StatusFilter(Some(Todo)))
    ensures RefreshRow(row, now).rec.status == Overdue
    ensures !MatchesAll(RefreshRow(row, now).rec, StatusFilter(Some(Todo)))
  {
    RefreshRowEffect(row, now);
  }

  /**
   * What an UpdateTask payload does to a task: description, title and status
   * are always written, due_date only when it was sent; project_id stays.
   */
  lemma TaskChangesEffect(t: Task, u: UpdateTask)
    requires !TaskWritesNull(u)
    ensures ApplyTask(t, TaskChanges(u)) ==
            t.(description := u.description.value, title := u.title.value, status := u.status,
               dueDate := if u.dueDate.Given? then u.dueDate.value else t.dueDate)
  {
    var head := [DescriptionField(u.description.value), TitleField(u.title.value)];
    var mid := if u.dueDate.Given? then [DueDateField(u.dueDate.value)] else [];
    var tail := [StatusField(u.status)];
    assert head[..1] == [head[0]] && head[..1][..0] == [];
    assert Apply(SetTaskField, t, head[..1][..0]) == t;
    assert Apply(SetTaskField, t, head[..1]) == t.(description := u.description.value);
    assert Apply(SetTaskField, t, head) == t.(description := u.description.value, title := u.title.value);
    ApplyAppend(SetTaskField, t, head, mid);
    if u.dueDate.Given? {
      assert mid[..0] == [];
    }
    ApplyAppend(SetTaskField, t, head + mid, tail);
    assert tail[..0] == [];
  }

  /** A valid payload keeps a task within its field limits through the update and the rule. */
  lemma UpdateKeepsFieldLimits(row: Row<Task>, u: UpdateTask, now: int)
    requires TaskFieldsOk(row.rec) && UpdateTaskOk(u) && !TaskWritesNull(u)
    ensures TaskFieldsOk(RefreshRow(Updated(row, ApplyTask(row.rec, TaskChanges(u)), now), now).rec)
  {
    TaskChangesEffect(row.rec, u);
    RefreshRowEffect(Updated(row, ApplyTask(row.rec, TaskChanges(u)), now), now);
  }

  /**
   * get_status_update. current is the session object the caller passes; a
   * missing one (None) fails on the attribute access (500). When past due
   * the status is written through update; otherwise nothing is written.
   */
  method StatusUpdate(tasks: Table<Task>, current: Option<Row<Task>>, now: int, internalCommit: bool)
    returns (r: Result<Row<Task>>)
    requires tasks.Valid()
    requires current.Some? ==> current.value.id in tasks.rows && tasks.rows[current.value.id] == current.value
    modifies tasks
    ensures tasks.Valid() && tasks.ids == old(tasks.ids) && tasks.nextId == old(tasks.nextId)
    ensures current.None? ==> r == Err(Internal) && tasks.rows == old(tasks.rows)
    ensures current.Some? ==> && r == Ok(RefreshRow(current.value, now))
                              && tasks.rows == old(tasks.rows)[current.value.id := r.value]
  {
    if current.None? {
      return Err(Internal);
    }
    var row := current.value;
    if PastDue(row.rec, now) {
      row := tasks.Update(row.id, MarkOverdue, SetTaskField, now);
      // internal_commit only commits what update has already committed.
    }
    return Ok(row);
  }

  /** The keys of a sequence of rows, in order. */
  function RowIds(s: seq<Row<Task>>): seq<int>
  {
    seq(|s|, i requires 0 <= i < |s| => s[i].id)
  }

  /** The rule mapped over a page: the page keeps its keys and their order. */
  function RefreshAll(s: seq<Row<Task>>, now: int): (r: seq<Row<Task>>)
    ensures |r| == |s| && forall i :: 0 <= i < |s| ==> r[i] == RefreshRow(s[i], now)
    ensures RowIds(r) == RowIds(s)
  {
    var r := seq(|s|, i requires 0 <= i < |s| => RefreshRow(s[i], now));
    assert RowIds(r) == RowIds(s) by {
      forall j | 0 <= j < |r| ensures RowIds(r)[j] == RowIds(s)[j] {
        RefreshRowEffect(s[j], now);
      }
    }
    r
  }

  /** Listing the same page twice at the same time gives what listing it once gives. */
  lemma RefreshAllIdempotent(s: seq<Row<Task>>, now: int)
    ensures RefreshAll(RefreshAll(s, now), now) == RefreshAll(s, now)
  {
    forall i | 0 <= i < |s| ensures RefreshAll(RefreshAll(s, now), now)[i] == RefreshAll(s, now)[i] {
      RefreshIdempotent(s[i], now);
    }
  }

  /** The table after the rule ran on the rows with keys in ids, and on no others. */
  ghost predicate RefreshedAt(before: map<int, Row<Task>>, after: map<int, Row<Task>>, ids: seq<int>, now: int)
  {
    && after.Keys == before.Keys
    && forall k :: k in after ==> after[k] == if k in ids then RefreshRow(before[k], now) else before[k]
  }

  /** One more run of the rule, on key k, keeps RefreshedAt; the rule's result there is the once-refreshed old row. */
  lemma RefreshedStep(before: map<int, Row<Task>>, mid: map<int, Row<Task>>, ids: seq<int>, k: int, now: int)
    requires RefreshedAt(before, mid, ids, now) && k in before
    ensures RefreshRow(mid[k], now) == RefreshRow(before[k], now)
    ensures RefreshedAt(before, mid[k := RefreshRow(mid[k], now)], ids + [k], now)
  {
    RefreshIdempotent(before[k], now);
  }

  /** The page get_tasks_by_project_id_with_update selects: project_id == p and all filters, skip/limit window, engine order. */
  function ProjectPage(tasks: Table<Task>, projectId: int, filters: seq<Pred>, skip: nat, limit: nat): (r: seq<Row<Task>>)
    reads tasks
    requires tasks.Valid()
    ensures r == Window(Select(tasks.Rows(), None, AsFilters([ProjectIs(projectId)] + filters)), skip, limit)
    ensures |r| <= limit
    ensures forall x :: x in r ==> && x.id in tasks.rows && tasks.rows[x.id] == x
                                   && x.rec.projectId == Some(projectId) && MatchesAll(x.rec, filters)
  {
    var r := tasks.GetList(skip, limit, None, AsFilters([ProjectIs(projectId)] + filters), None, None);
    MatchesAllAppend([ProjectIs(projectId)], filters);
    assert forall x :: x in r ==> MatchesAll(x.rec, [ProjectIs(projectId)]) ==> x.rec.projectId == Some(projectId) by {
      forall x | x in r ensures MatchesAll(x.rec, [ProjectIs(projectId)]) ==> x.rec.projectId == Some(projectId) {
        MatchesSingle(x.rec, ProjectIs(projectId));
      }
    }
    r
  }

  /**
   * get_tasks_by_project_id_with_update: the page, with the rule applied to
   * each task of it in turn (without commit), then one commit. The result has
   * the page's length and order; an empty page gives [].
   */
  method ListWithUpdate(tasks: Table<Task>, projectId: int, filters: seq<Pred>, skip: nat, limit: nat, now: int)
    returns (r: seq<Row<Task>>)
    requires tasks.Valid()
    modifies tasks
    ensures tasks.Valid() && tasks.ids == old(tasks.ids) && tasks.nextId == old(tasks.nextId)
    ensures r == RefreshAll(old(ProjectPage(tasks, projectId, filters, skip, limit)), now)
    ensures RowIds(r) == RowIds(old(ProjectPage(tasks, projectId, filters, skip, limit)))
    ensures RefreshedAt(old(tasks.rows), tasks.rows, RowIds(r), now)
  {
    var page := ProjectPage(tasks, projectId, filters, skip, limit);
    if |page| == 0 {
      return [];
    }
    r := RefreshEach(tasks, page, now);
  }

  /** The loop of get_tasks_by_project_id_with_update: the rule on each task of a page of stored rows, in order. */
  method RefreshEach(tasks: Table<Task>, page: seq<Row<Task>>, now: int) returns (r: seq<Row<Task>>)
    requires tasks.Valid()
    requires forall x :: x in page ==> x.id in tasks.rows && tasks.rows[x.id] == x
    modifies tasks
    ensures tasks.Valid() && tasks.ids == old(tasks.ids) && tasks.nextId == old(tasks.nextId)
    ensures r == RefreshAll(page, now)
    ensures RowIds(r) == RowIds(page)
    ensures RefreshedAt(old(tasks.rows), tasks.rows, RowIds(r), now)
  {
    ghost var before := tasks.rows;
    var pageIds := RowIds(page);
    r := [];
    var i := 0;
    while i < |page|
      invariant 0 <= i <= |page|
      invariant tasks.Valid() && tasks.ids == old(tasks.ids) && tasks.nextId == old(tasks.nextId)
      invariant RefreshedAt(before, tasks.rows, pageIds[..i], now)
      invariant |r| == i && forall j :: 0 <= j < i ==> r[j] == RefreshRow(page[j], now)
      invariant RowIds(r) == pageIds[..i]
    {
      assert page[i] in page;
      var k := page[i].id;
      assert before[k] == page[i];
      // The session hands out one object per key: the task of the page is the stored row as it is now.
      var current := tasks.rows[k];
      ghost var mid := tasks.rows;
      RefreshedStep(before, mid, pageIds[..i], k, now);
      var u := StatusUpdate(tasks, Some(current), now, false);
      RefreshRowEffect(current, now);
      assert RowIds(r + [u.value]) == RowIds(r) + [k];
      r := r + [u.value];
      assert pageIds[..i + 1] == pageIds[..i] + [k];
      i := i + 1;
    }
    assert pageIds[..|page|] == pageIds;
  }

  /** get_tasks_by_project_id: every stored task of the project, in engine order, without the rule. */
  function TasksOfProject(tasks: Table<Task>, projectId: int): (r: seq<Row<Task>>)
    reads tasks
    requires tasks.Valid()
    ensures forall x :: x in r <==> x.id in tasks.rows && tasks.rows[x.id] == x && x.rec.projectId == Some(projectId)
  {
    var r := Select(tasks.Rows(), None, AsFilters([ProjectIs(projectId)]));
    assert forall x: Row<Task> :: MatchesAll(x.rec, [ProjectIs(projectId)]) <==> x.rec.projectId == Some(projectId) by {
      forall x: Row<Task> ensures MatchesAll(x.rec, [ProjectIs(projectId)]) <==> x.rec.projectId == Some(projectId) {
        MatchesSingle(x.rec, ProjectIs(projectId));
      }
    }
    r
  }
}
