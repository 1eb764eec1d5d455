/**
 * Conversions between the stored entity and the request/response contracts.
 * The clock reads of the source are parameters here.
 */
module TaskMapper {
  import opened TaskModels

  /** Entity to response: every one of the eight fields is carried over unchanged. */
  function ToTaskResponse(t: Task): (r: TaskResponse)
    ensures r.id == t.id && r.title == t.title && r.description == t.description
    ensures r.priority == t.priority && r.dueDate == t.dueDate && r.isCompleted == t.isCompleted
    ensures r.createdAt == t.createdAt && r.updatedAt == t.updatedAt
  {
    TaskResponse(t.id, t.title, t.description, t.priority, t.dueDate, t.isCompleted,
                 t.createdAt, t.updatedAt)
  }

  /** The response loses nothing: two entities with the same response are the same entity. */
  lemma ToTaskResponseIsLossless(a: Task, b: Task)
    ensures ToTaskResponse(a) == ToTaskResponse(b) <==> a == b
  {
    if ToTaskResponse(a) == ToTaskResponse(b) {
      assert a.id == b.id && a.title == b.title && a.description == b.description;
      assert a.createdAt == b.createdAt && a.updatedAt == b.updatedAt;
    }
  }

  /** Creation request to a new entity. `createdNow` and `updatedNow` are the two clock
      reads the source makes, in that order. The id is not set, so it keeps the default 0
      until the store assigns one. */
  function ToTaskItem(dto: CreateTaskRequest, createdNow: int, updatedNow: int): (t: Task)
    ensures t.title == dto.title && t.description == dto.description
    ensures t.priority == dto.priority && t.dueDate == dto.dueDate
    ensures !t.isCompleted && t.id == 0
    ensures t.createdAt == createdNow && t.updatedAt == updatedNow
  {
    Task(0, dto.title, dto.description, dto.priority, dto.dueDate, false, createdNow, updatedNow)
  }

  /** With a clock that does not run backwards the new entity has createdAt <= updatedAt;
      with one instant for both reads the two stamps are equal. */
  lemma ToTaskItemTimestamps(dto: CreateTaskRequest, createdNow: int, updatedNow: int)
    requires createdNow <= updatedNow
    ensures ToTaskItem(dto, createdNow, updatedNow).createdAt <= ToTaskItem(dto, createdNow, updatedNow).updatedAt
    ensures createdNow == updatedNow ==>
              ToTaskItem(dto, createdNow, updatedNow).createdAt == ToTaskItem(dto, createdNow, updatedNow).updatedAt
  {
  }

  /** The row an update produces: the five mutable fields from the request, the modification
      stamp from the clock, id and creation stamp kept. No due-date check is applied. */
  function ApplyUpdate(t: Task, dto: UpdateTaskRequest, now: int): (u: Task)
    ensures u.title == dto.title && u.description == dto.description
    ensures u.priority == dto.priority && u.dueDate == dto.dueDate
    ensures u.isCompleted == dto.isCompleted && u.updatedAt == now
    ensures u.id == t.id && u.createdAt == t.createdAt
  {
    t.(title := dto.title, description := dto.description, priority := dto.priority,
       dueDate := dto.dueDate, isCompleted := dto.isCompleted, updatedAt := now)
  }

  /** Applying the same update twice at the same instant is the same as applying it once. */
  lemma ApplyUpdateIsIdempotent(t: Task, dto: UpdateTaskRequest, now: int)
    ensures ApplyUpdate(ApplyUpdate(t, dto, now), dto, now) == ApplyUpdate(t, dto, now)
  {
  }

  /** The outcome of an update depends on the old row only through its id and creation stamp. */
  lemma ApplyUpdateForgetsOldValues(t: Task, t': Task, dto: UpdateTaskRequest, now: int)
    requires t.id == t'.id && t.createdAt == t'.createdAt
    ensures ApplyUpdate(t, dto, now) == ApplyUpdate(t', dto, now)
  {
  }

  /** If the clock has not gone back since the row was last stamped, an update keeps
      createdAt <= updatedAt and does not move updatedAt backwards. */
  lemma ApplyUpdateAdvancesStamp(t: Task, dto: UpdateTaskRequest, now: int)
    requires t.createdAt <= t.updatedAt <= now
    ensures ApplyUpdate(t, dto, now).createdAt <= ApplyUpdate(t, dto, now).updatedAt
    ensures t.updatedAt <= ApplyUpdate(t, dto, now).updatedAt
  {
  }

  /** Update of an entity object in place: assigns the five fields of the request and the
      modification stamp; nothing else of the object changes. */
  method UpdateTaskItem(task: TaskItem, dto: UpdateTaskRequest, now: int)
    modifies task
    ensures task.Value() == ApplyUpdate(old(task.Value()), dto, now)
  {
    task.title := dto.title;
    task.description := dto.description;
    task.priority := dto.priority;
    task.dueDate := dto.dueDate;
    task.isCompleted := dto.isCompleted;
    task.updatedAt := now;
  }
}
