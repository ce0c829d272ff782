/**
 * Record shapes and field constraints: models/utils.py, models/base.py,
 * models/task.py and models/project.py.
 *
 * The primary key and the two timestamps of TimeStampModel are kept by the
 * store (Store.Row); the datatypes here are the entity's own columns.
 */
module Models {
  import opened Common

  /** TaskStatus, a string enum with four members. */
  datatype TaskStatus = Todo | InProgress | Completed | Overdue {
    /** The string the member stands for in requests and in the database. */
    function Value(): string
    {
      match this
      case Todo => "todo"
      case InProgress => "in_progress"
      case Completed => "completed"
      case Overdue => "overdue"
    }
  }

  /** Converting a string to the enum, as the framework does for a `status` query parameter. */
  function ParseStatus(v: string): (r: Option<TaskStatus>)
    ensures r.Some? ==> r.value.Value() == v
    ensures r.None? <==> v !in {"todo", "in_progress", "completed", "overdue"}
  {
    if v == "todo" then Some(Todo)
    else if v == "in_progress" then Some(InProgress)
    else if v == "completed" then Some(Completed)
    else if v == "overdue" then Some(Overdue)
    else None
  }

  /** Every member survives the trip to its string and back. */
  lemma StatusRoundTrip(s: TaskStatus)
    ensures ParseStatus(s.Value()) == Some(s)
  {
  }

  /** The four members have four distinct values. */
  lemma StatusValuesDistinct(s1: TaskStatus, s2: TaskStatus)
    ensures s1.Value() == s2.Value() ==> s1 == s2
  {
    StatusRoundTrip(s1);
    StatusRoundTrip(s2);
  }

  // Field limits declared with max_length.
  const MaxDescriptionLength: nat := 255
  const MaxTitleLength: nat := 64
  const MaxNameLength: nat := 64

  /** Pagination: an offset and a row count. */
  datatype PageParams = PageParams(skip: int, limit: int)

  /** The defaults of Pagination and of the `pagination` dependency. */
  const DefaultSkip: int := 0
  const DefaultLimit: int := 100
  const DefaultPage: PageParams := PageParams(DefaultSkip, DefaultLimit)

  /**
   * A task's own columns (TaskBase plus project_id). Both project_id and the
   * due date are nullable: None is NULL (no project, no deadline).
   */
  datatype Task = Task(projectId: Option<int>, title: string, description: string, dueDate: Option<int>, status: TaskStatus)

  /** A project's own columns (ProjectBase). */
  datatype Project = Project(name: string, description: string)

  predicate TaskFieldsOk(t: Task)
  {
    |t.title| <= MaxTitleLength && |t.description| <= MaxDescriptionLength
  }

  predicate ProjectFieldsOk(p: Project)
  {
    |p.name| <= MaxNameLength && |p.description| <= MaxDescriptionLength
  }

  /** A field of an update payload with a default: Omitted when the client did not send it. */
  datatype Patch<T> = Omitted | Given(value: T)

  /** CreateTask: title, description and status are required, due_date defaults to None. */
  datatype CreateTask = CreateTask(title: string, dueDate: Option<int>, status: TaskStatus, description: string)

  /**
   * UpdateTask: description, title and status are required (so always sent),
   * description and title may be null; due_date has a default and may be left out.
   */
  datatype UpdateTask = UpdateTask(description: Option<string>, title: Option<string>, dueDate: Patch<Option<int>>, status: TaskStatus)

  /** CreateProject: description and name, both required. */
  datatype CreateProject = CreateProject(description: string, name: string)

  /** UpdateProject: both fields default to None, so either may be left out (or sent as null). */
  datatype UpdateProject = UpdateProject(description: Patch<Option<string>>, name: Patch<Option<string>>)

  predicate CreateTaskOk(p: CreateTask)
  {
    |p.title| <= MaxTitleLength && |p.description| <= MaxDescriptionLength
  }

  predicate UpdateTaskOk(u: UpdateTask)
  {
    && (u.title.Some? ==> |u.title.value| <= MaxTitleLength)
    && (u.description.Some? ==> |u.description.value| <= MaxDescriptionLength)
  }

  predicate CreateProjectOk(p: CreateProject)
  {
    |p.name| <= MaxNameLength && |p.description| <= MaxDescriptionLength
  }

  predicate UpdateProjectOk(u: UpdateProject)
  {
    && (u.name.Given? && u.name.value.Some? ==> |u.name.value.value| <= MaxNameLength)
    && (u.description.Given? && u.description.value.Some? ==> |u.description.value.value| <= MaxDescriptionLength)
  }

  /** One `setattr` on a task. */
  datatype TaskField = DescriptionField(description: string) | TitleField(title: string)
                     | DueDateField(dueDate: Option<int>) | StatusField(status: TaskStatus)
                     | ProjectIdField(projectId: Option<int>)

  /** One `setattr` on a project. */
  datatype ProjectField = ProjectDescriptionField(description: string) | NameField(name: string)

  function SetTaskField(t: Task, f: TaskField): Task
  {
    match f
    case DescriptionField(d) => t.(description := d)
    case TitleField(s) => t.(title := s)
    case DueDateField(d) => t.(dueDate := d)
    case StatusField(s) => t.(status := s)
    case ProjectIdField(p) => t.(projectId := p)
  }

  function SetProjectField(p: Project, f: ProjectField): Project
  {
    match f
    case ProjectDescriptionField(d) => p.(description := d)
    case NameField(n) => p.(name := n)
  }

  /** The row create_task inserts: project_id from the query, the rest from the payload. */
  function TaskFromCreate(projectId: int, p: CreateTask): Task
  {
    Task(Some(projectId), p.title, p.description, p.dueDate, p.status)
  }

  function ProjectFromCreate(p: CreateProject): Project
  {
    Project(p.name, p.description)
  }

  /** An UpdateTask payload writes null into a NOT NULL column. */
  predicate TaskWritesNull(u: UpdateTask)
  {
    u.title.None? || u.description.None?
  }

  /** An UpdateProject payload writes null into a NOT NULL column. */
  predicate ProjectWritesNull(u: UpdateProject)
  {
    (u.description.Given? && u.description.value.None?) || (u.name.Given? && u.name.value.None?)
  }

  /** The fields `dict(exclude_unset=True)` yields for an UpdateTask, in declaration order. */
  function TaskChanges(u: UpdateTask): seq<TaskField>
    requires !TaskWritesNull(u)
  {
    [DescriptionField(u.description.value), TitleField(u.title.value)]
    + (if u.dueDate.Given? then [DueDateField(u.dueDate.value)] else [])
    + [StatusField(u.status)]
  }

  /** The fields `dict(exclude_unset=True)` yields for an UpdateProject, in declaration order. */
  function ProjectChanges(u: UpdateProject): seq<ProjectField>
    requires !ProjectWritesNull(u)
  {
    (if u.description.Given? then [ProjectDescriptionField(u.description.value.value)] else [])
    + (if u.name.Given? then [NameField(u.name.value.value)] else [])
  }
}
