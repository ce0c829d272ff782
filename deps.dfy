/**
 * The request dependencies of api/deps.py: pagination bounds, the status
 * filter, the inclusive due-date range filter and their conjunction.
 *
 * A filter on tasks is a Pred; Matches gives its meaning on a task's stored
 * columns, with SQL's rule that a comparison against a NULL due date is not
 * true.
 */
module Deps {
  import opened Common
  import opened Models
  import opened Store

  datatype Pred = StatusIs(status: TaskStatus) | DueFrom(from: int) | DueTo(to: int) | ProjectIs(projectId: int)

  predicate Matches(t: Task, p: Pred)
  {
    match p
    case StatusIs(s) => t.status == s
    case DueFrom(x) => t.dueDate.Some? && t.dueDate.value >= x
    case DueTo(x) => t.dueDate.Some? && t.dueDate.value <= x
    case ProjectIs(id) => t.projectId == Some(id)
  }

  predicate MatchesAll(t: Task, ps: seq<Pred>)
  {
    forall i :: 0 <= i < |ps| ==> Matches(t, ps[i])
  }

  /** A task matches a concatenation of filter lists iff it matches both lists. */
  lemma {:induction false} MatchesAllAppend(a: seq<Pred>, b: seq<Pred>)
    ensures forall t :: MatchesAll(t, a + b) <==> MatchesAll(t, a) && MatchesAll(t, b)
  {
    forall t ensures MatchesAll(t, a + b) <==> MatchesAll(t, a) && MatchesAll(t, b) {
      if MatchesAll(t, a + b) {
        forall i | 0 <= i < |a| ensures Matches(t, a[i]) { assert (a + b)[i] == a[i]; }
        forall i | 0 <= i < |b| ensures Matches(t, b[i]) { assert (a + b)[|a| + i] == b[i]; }
      }
    }
  }

  lemma MatchesSingle(t: Task, p: Pred)
    ensures MatchesAll(t, [p]) <==> Matches(t, p)
  {
    assert [p][0] == p;
  }

  /** The SQL expression a Pred stands for, as a store filter. */
  function AsFilter(p: Pred): Task -> bool
  {
    t => Matches(t, p)
  }

  function AsFilters(ps: seq<Pred>): (fs: seq<Task -> bool>)
    ensures |fs| == |ps|
    ensures forall t :: SatisfiesAll(t, fs) <==> MatchesAll(t, ps)
  {
    var fs := seq(|ps|, i requires 0 <= i < |ps| => AsFilter(ps[i]));
    assert forall i :: 0 <= i < |ps| ==> fs[i] == AsFilter(ps[i]);
    fs
  }

  /** pagination: 400 for a negative skip or a non-positive limit, otherwise exactly the given window. */
  function Pagination(skip: int, limit: int): (r: Result<PageParams>)
    ensures r.Err? <==> skip < 0 || limit <= 0
    ensures r.Err? ==> r.error == BadRequest
    ensures r.Ok? ==> r.value.skip == skip >= 0 && r.value.limit == limit > 0
  {
    if skip < 0 || limit <= 0 then Err(BadRequest) else Ok(PageParams(skip, limit))
  }

  /** With no query parameters the defaults pass the check unchanged. */
  lemma DefaultPaginationAccepted()
    ensures Pagination(DefaultSkip, DefaultLimit) == Ok(DefaultPage)
    ensures DefaultPage.skip == 0 && DefaultPage.limit == 100
  {
  }

  /** get_status_filter: no predicate without a status, one equality predicate with one. */
  function StatusFilter(status: Option<TaskStatus>): (r: seq<Pred>)
    ensures |r| == if status.None? then 0 else 1
    ensures forall t :: MatchesAll(t, r) <==> status.None? || t.status == status.value
  {
    if status.None? then []
    else
      assert forall t :: MatchesAll(t, [StatusIs(status.value)]) <==> Matches(t, StatusIs(status.value)) by {
        forall t { MatchesSingle(t, StatusIs(status.value)); }
      }
      [StatusIs(status.value)]
  }

  /** Python truthiness of an optional query string: present and not empty. */
  predicate BoundGiven(bound: Option<string>)
  {
    bound.Some? && bound.value != ""
  }

  /**
   * The meaning of get_due_date_filter, with the ISO-8601 parser as the
   * parameter `parse`: a given bound that does not parse makes the whole
   * dependency fail with 400; otherwise one predicate per given bound,
   * `from` first, both inclusive.
   */
  function DueDatePredicates(from: Option<string>, to: Option<string>, parse: string -> Option<int>): (r: Result<seq<Pred>>)
    ensures r.Err? <==> (BoundGiven(from) && parse(from.value).None?) || (BoundGiven(to) && parse(to.value).None?)
    ensures r.Err? ==> r.error == BadRequest
    ensures r.Ok? ==> |r.value| == (if BoundGiven(from) then 1 else 0) + (if BoundGiven(to) then 1 else 0)
    ensures r.Ok? ==> forall t :: MatchesAll(t, r.value) <==>
                        && (BoundGiven(from) ==> t.dueDate.Some? && t.dueDate.value >= parse(from.value).value)
                        && (BoundGiven(to) ==> t.dueDate.Some? && t.dueDate.value <= parse(to.value).value)
  {
    if BoundGiven(from) && parse(from.value).None? then Err(BadRequest)
    else if BoundGiven(to) && parse(to.value).None? then Err(BadRequest)
    else
      var a := if BoundGiven(from) then [DueFrom(parse(from.value).value)] else [];
      var b := if BoundGiven(to) then [DueTo(parse(to.value).value)] else [];
      MatchesAllAppend(a, b);
      assert forall t :: MatchesAll(t, a) <==> (BoundGiven(from) ==> Matches(t, a[0])) by {
        forall t ensures MatchesAll(t, a) <==> (BoundGiven(from) ==> Matches(t, a[0])) {
          if BoundGiven(from) { MatchesSingle(t, a[0]); }
        }
      }
      assert forall t :: MatchesAll(t, b) <==> (BoundGiven(to) ==> Matches(t, b[0])) by {
        forall t ensures MatchesAll(t, b) <==> (BoundGiven(to) ==> Matches(t, b[0])) {
          if BoundGiven(to) { MatchesSingle(t, b[0]); }
        }
      }
      Ok(a + b)
  }

  /** get_due_date_filter, building the list with one append per given bound. */
  method DueDateFilter(from: Option<string>, to: Option<string>, parse: string -> Option<int>) returns (r: Result<seq<Pred>>)
    ensures r == DueDatePredicates(from, to, parse)
  {
    var filters: seq<Pred> := [];
    if BoundGiven(from) {
      var v := parse(from.value);
      if v.None? {
        return Err(BadRequest);
      }
      filters := filters + [DueFrom(v.value)];
    }
    ghost var a := filters;
    if BoundGiven(to) {
      var v := parse(to.value);
      if v.None? {
        return Err(BadRequest);
      }
      filters := filters + [DueTo(v.value)];
    }
    assert filters == a + (if BoundGiven(to) then [DueTo(parse(to.value).value)] else []);
    assert a == if BoundGiven(from) then [DueFrom(parse(from.value).value)] else [];
    return Ok(filters);
  }

  /** get_task_filters: the status predicates, then the due-date predicates; a task matches iff it matches both groups. */
  method TaskFilters(statusFilter: seq<Pred>, dueDateFilter: seq<Pred>) returns (r: seq<Pred>)
    ensures r == statusFilter + dueDateFilter
    ensures forall t :: MatchesAll(t, r) <==> MatchesAll(t, statusFilter) && MatchesAll(t, dueDateFilter)
  {
    var filters: seq<Pred> := [];
    if |statusFilter| > 0 {
      filters := filters + statusFilter;
    }
    if |dueDateFilter| > 0 {
      filters := filters + dueDateFilter;
    }
    MatchesAllAppend(statusFilter, dueDateFilter);
    assert statusFilter + [] == statusFilter;
    assert [] + dueDateFilter == dueDateFilter;
    return filters;
  }

  /** The filter list of the task list endpoint: status, then due-date range. */
  function TaskPredicates(status: Option<TaskStatus>, from: Option<string>, to: Option<string>,
                          parse: string -> Option<int>): (r: Result<seq<Pred>>)
    ensures r.Err? <==> DueDatePredicates(from, to, parse).Err?
    ensures r.Ok? ==> forall t :: MatchesAll(t, r.value) <==>
                        (status.None? || t.status == status.value) && MatchesAll(t, DueDatePredicates(from, to, parse).value)
  {
    match DueDatePredicates(from, to, parse)
    case Err(e) => Err(e)
    case Ok(due) =>
      MatchesAllAppend(StatusFilter(status), due);
      Ok(StatusFilter(status) + due)
  }

  /**
   * The due-date filter counts of the route tests: tasks due on 2022-01-01,
   * 2022-01-15 and 2022-02-01 (days 0, 14 and 31); from 2022-01-10 (day 9)
   * keeps two, to 2022-01-20 (day 19) keeps two, both keep one.
   */
  lemma DueDateRangeExample(parse: string -> Option<int>)
    requires parse("2022-01-10") == Some(9) && parse("2022-01-20") == Some(19)
    ensures var ts := [Task(Some(1), "a", "a", Some(0), Todo), Task(Some(1), "b", "b", Some(14), Todo), Task(Some(1), "c", "c", Some(31), Todo)];
            var rows := [Row(1, 0, 0, ts[0]), Row(2, 0, 0, ts[1]), Row(3, 0, 0, ts[2])];
            && |Select(rows, None, AsFilters(DueDatePredicates(Some("2022-01-10"), None, parse).value))| == 2
            && |Select(rows, None, AsFilters(DueDatePredicates(None, Some("2022-01-20"), parse).value))| == 2
            && |Select(rows, None, AsFilters(DueDatePredicates(Some("2022-01-10"), Some("2022-01-20"), parse).value))| == 1
  {
    var ts := [Task(Some(1), "a", "a", Some(0), Todo), Task(Some(1), "b", "b", Some(14), Todo), Task(Some(1), "c", "c", Some(31), Todo)];
    var rows := [Row(1, 0, 0, ts[0]), Row(2, 0, 0, ts[1]), Row(3, 0, 0, ts[2])];
    assert DueDatePredicates(Some("2022-01-10"), None, parse).value == [DueFrom(9)];
    assert DueDatePredicates(None, Some("2022-01-20"), parse).value == [DueTo(19)];
    assert DueDatePredicates(Some("2022-01-10"), Some("2022-01-20"), parse).value == [DueFrom(9), DueTo(19)];
    CountExample(rows, [DueFrom(9)], false, true, true, 2);
    CountExample(rows, [DueTo(19)], true, true, false, 2);
    CountExample(rows, [DueFrom(9), DueTo(19)], false, true, false, 1);
  }

  /** Counting the rows of a three-row table that a filter list keeps, from the verdict on each row. */
  lemma CountExample(rows: seq<Row<Task>>, ps: seq<Pred>, p0: bool, p1: bool, p2: bool, n: nat)
    requires |rows| == 3
    requires MatchesAll(rows[0].rec, ps) == p0 && MatchesAll(rows[1].rec, ps) == p1 && MatchesAll(rows[2].rec, ps) == p2
    requires n == (if p0 then 1 else 0) + (if p1 then 1 else 0) + (if p2 then 1 else 0)
    ensures |Select(rows, None, AsFilters(ps))| == n
  {
    var fs := AsFilters(ps);
    assert SatisfiesAll(rows[0].rec, fs) == p0 && SatisfiesAll(rows[1].rec, fs) == p1 && SatisfiesAll(rows[2].rec, fs) == p2;
    assert rows[1..][0] == rows[1] && rows[1..][1..][0] == rows[2];
    assert rows[1..][1..][1..] == [];
    assert |Select(rows[1..][1..], None, fs)| == (if p2 then 1 else 0);
    assert |Select(rows[1..], None, fs)| == (if p1 then 1 else 0) + (if p2 then 1 else 0);
  }
}
