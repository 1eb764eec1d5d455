/**
 * The task entity, its request and response contracts, and the priority enumeration.
 *
 * Timestamps (`DateTime` in the source) are integer ticks; a nullable timestamp or string
 * is an `Option`. The persisted row is the value type `Task`; `TaskItem` is the in-memory
 * entity object that the update handler loads, mutates in place and saves back.
 */
module TaskModels {

  datatype Option<+T> = None | Some(value: T)

  /** Task urgency. The enum declaration is not part of this model; the ordinals below
      (Low = 0, Medium = 1, High = 2, declaration order) are assumed. They matter because
      the store keeps the priority as an integer column and sorts by it. */
  datatype Priority = Low | Medium | High

  function Ordinal(p: Priority): (n: nat)
    ensures n < 3
    ensures (n == 0) == (p == Low) && (n == 1) == (p == Medium) && (n == 2) == (p == High)
  {
    match p
    case Low => 0
    case Medium => 1
    case High => 2
  }

  /** One row of the Tasks table. */
  datatype Task = Task(
    id: int,
    title: string,
    description: Option<string>,
    priority: Priority,
    dueDate: Option<int>,
    isCompleted: bool,
    createdAt: int,
    updatedAt: int)

  /** The body returned by every read and write handler: the full entity shape. */
  datatype TaskResponse = TaskResponse(
    id: int,
    title: string,
    description: Option<string>,
    priority: Priority,
    dueDate: Option<int>,
    isCompleted: bool,
    createdAt: int,
    updatedAt: int)

  /** Creation contract: no id, no timestamps, no completion flag. */
  datatype CreateTaskRequest = CreateTaskRequest(
    title: string,
    description: Option<string>,
    priority: Priority,
    dueDate: Option<int>)

  /** Update contract: the creation fields plus the completion flag. */
  datatype UpdateTaskRequest = UpdateTaskRequest(
    title: string,
    description: Option<string>,
    priority: Priority,
    dueDate: Option<int>,
    isCompleted: bool)

  /** The entity object the data context hands out; its properties are assigned in place. */
  class TaskItem {
    var id: int
    var title: string
    var description: Option<string>
    var priority: Priority
    var dueDate: Option<int>
    var isCompleted: bool
    var createdAt: int
    var updatedAt: int

    /** The row this object currently holds. */
    function Value(): Task
      reads this
    {
      Task(id, title, description, priority, dueDate, isCompleted, createdAt, updatedAt)
    }

    /** Materialise a stored row as an entity object (what a lookup by key returns). */
    constructor FromRow(row: Task)
      ensures Value() == row
    {
      id := row.id;
      title := row.title;
      description := row.description;
      priority := row.priority;
      dueDate := row.dueDate;
      isCompleted := row.isCompleted;
      createdAt := row.createdAt;
      updatedAt := row.updatedAt;
    }
  }
}
