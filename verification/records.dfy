/** The three record kinds the services keep, with the fields they carry. */
module Records {
  import opened Wrappers
  import opened Dates

  /**
   * A task. `parentId` marks a subtask and `status` is the board's column tag;
   * both come only from stored data or later updates, never from `create`.
   */
  datatype Task = Task(
    Id: int,
    title: string,
    description: string,
    priority: string,
    dueDate: Option<Day>,
    category: string,
    projectId: Option<int>,
    completed: bool,
    createdAt: Time,
    completedAt: Option<Time>,
    parentId: Option<int>,
    status: Option<string>)

  /**
   * A project. `progress` is a percentage the form lets the user edit. An
   * edit can store an empty start date and a `NaN` progress; `None` stands
   * for each.
   */
  datatype Project = Project(
    Id: int,
    name: string,
    description: string,
    status: string,
    priority: string,
    startDate: Option<Day>,
    dueDate: Option<Day>,
    color: string,
    progress: Option<int>,
    createdAt: Time,
    updatedAt: Time)

  /** A category. `taskCount` is stored, never recomputed. */
  datatype Category = Category(Id: int, name: string, color: string, taskCount: int)

  function TaskId(t: Task): int { t.Id }
  function ProjectId(p: Project): int { p.Id }
  function CategoryId(c: Category): int { c.Id }

  /** The sort keys of the pages' newest-first lists. */
  function UpdatedAt(p: Project): int { p.updatedAt }
  function CreatedAt(t: Task): int { t.createdAt }
}
