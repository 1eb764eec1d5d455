/**
 * The task resource handlers over the task store.
 *
 * The table of tasks is a map from id to row; the identity column that numbers new rows is
 * a counter. "Now" is a parameter of every handler that reads the clock. Outcomes stand for
 * the HTTP results: 200 with a body, 201 with a body, 404, 400 with a message, 204.
 */
module TasksController {
  import opened TaskModels
  import opened TaskMapper
  import opened TaskQuery

  datatype Outcome =
    | Ok(body: TaskResponse)
    | Created(body: TaskResponse)
    | NotFound
    | BadRequest(error: string)
    | NoContent

  const PastDueDateError := "Due date cannot be in the past."

  /** A creation request is rejected exactly when it carries a due date before `now`. */
  predicate DueDateInPast(request: CreateTaskRequest, now: int) {
    request.dueDate.Some? && request.dueDate.value < now
  }

  class TaskStore {
    /** The Tasks table, keyed by id. */
    var tasks: map<int, Task>
    /** The next value of the identity column. */
    var nextId: int

    /** Each row is stored under its own id, and every id was issued by the counter. */
    ghost predicate Valid()
      reads this
    {
      && nextId >= 1
      && forall id :: id in tasks ==> tasks[id].id == id && 1 <= id < nextId
    }

    /** No stored row was modified before it was created. */
    ghost predicate StampsOrdered()
      reads this
    {
      forall id :: id in tasks ==> tasks[id].createdAt <= tasks[id].updatedAt
    }

    constructor ()
      ensures Valid() && StampsOrdered()
      ensures tasks == map[] && nextId == 1
    {
      tasks := map[];
      nextId := 1;
    }

    /** `GET /api/tasks/{id}`: the stored task as a response, or NotFound. */
    method GetTask(id: int) returns (r: Outcome)
      ensures id !in tasks ==> r == NotFound
      ensures id in tasks ==> r == Ok(ToTaskResponse(tasks[id]))
    {
      if id !in tasks {
        return NotFound;
      }
      r := Ok(ToTaskResponse(tasks[id]));
    }

    /** `POST /api/tasks`: a due date before `now` is rejected and nothing is stored;
        otherwise the mapped request is stored under a fresh id, larger than every id
        issued before, and nothing else in the table changes. */
    method CreateTask(request: CreateTaskRequest, now: int) returns (r: Outcome)
      requires Valid()
      modifies this
      ensures Valid()
      ensures DueDateInPast(request, now) ==>
                r == BadRequest(PastDueDateError) && tasks == old(tasks) && nextId == old(nextId)
      ensures !DueDateInPast(request, now) ==>
                && old(nextId) !in old(tasks)
                && (forall id :: id in old(tasks) ==> id < old(nextId))
                && tasks == old(tasks)[old(nextId) := ToTaskItem(request, now, now).(id := old(nextId))]
                && nextId == old(nextId) + 1
                && r == Created(ToTaskResponse(tasks[old(nextId)]))
      ensures old(StampsOrdered()) ==> StampsOrdered()
    {
      if DueDateInPast(request, now) {
        return BadRequest(PastDueDateError);
      }
      var task := ToTaskItem(request, now, now);
      var id := nextId;
      task := task.(id := id);
      tasks := tasks[id := task];
      nextId := nextId + 1;
      r := Created(ToTaskResponse(task));
    }

    /** `PUT /api/tasks/{id}`: NotFound for an absent id; otherwise the stored row is loaded
        as an entity object, updated in place and saved back. Only that row changes, and no
        due-date check is made. */
    method UpdateTask(id: int, request: UpdateTaskRequest, now: int) returns (r: Outcome)
      requires Valid()
      modifies this
      ensures Valid() && nextId == old(nextId)
      ensures id !in old(tasks) ==> r == NotFound && tasks == old(tasks)
      ensures id in old(tasks) ==>
                && tasks == old(tasks)[id := ApplyUpdate(old(tasks)[id], request, now)]
                && r == Ok(ToTaskResponse(tasks[id]))
      ensures old(StampsOrdered()) && (id in old(tasks) ==> old(tasks)[id].createdAt <= now) ==>
                StampsOrdered()
    {
      if id !in tasks {
        return NotFound;
      }
      var item := new TaskItem.FromRow(tasks[id]);
      UpdateTaskItem(item, request, now);
      tasks := tasks[id := item.Value()];
      r := Ok(ToTaskResponse(item.Value()));
    }

    /** `DELETE /api/tasks/{id}`: NotFound for an absent id; otherwise exactly that key is
        removed. */
    method DeleteTask(id: int) returns (r: Outcome)
      requires Valid()
      modifies this
      ensures Valid() && nextId == old(nextId)
      ensures id !in old(tasks) ==> r == NotFound && tasks == old(tasks)
      ensures id in old(tasks) ==> r == NoContent && tasks == old(tasks) - {id}
      ensures old(StampsOrdered()) ==> StampsOrdered()
    {
      if id !in tasks {
        return NotFound;
      }
      tasks := tasks - {id};
      r := NoContent;
    }
  }

  // ---------------------------------------------------------------------------------------
  // The list query over the store
  // ---------------------------------------------------------------------------------------

  /** `rows` lists every stored task exactly once, in some order chosen by the store. */
  ghost predicate Enumerates(rows: seq<Task>, tasks: map<int, Task>) {
    && (forall i :: 0 <= i < |rows| ==> rows[i].id in tasks && tasks[rows[i].id] == rows[i])
    && (forall i, j :: 0 <= i < j < |rows| ==> rows[i].id != rows[j].id)
    && (forall id :: id in tasks ==> exists i :: 0 <= i < |rows| && rows[i].id == id)
  }

  function Ids(rows: seq<Task>): (r: set<int>)
    ensures forall i :: 0 <= i < |rows| ==> rows[i].id in r
    ensures forall id :: id in r ==> exists i :: 0 <= i < |rows| && rows[i].id == id
  {
    if rows == [] then {} else {rows[0].id} + Ids(rows[1..])
  }

  /** Distinct ids: as many ids as rows. */
  lemma {:induction false} DistinctIdsCount(rows: seq<Task>)
    requires forall i, j :: 0 <= i < j < |rows| ==> rows[i].id != rows[j].id
    ensures |Ids(rows)| == |rows|
  {
    if rows != [] {
      DistinctIdsCount(rows[1..]);
      assert rows[0].id !in Ids(rows[1..]);
    }
  }

  /** An enumeration of the store has one row per stored task. */
  lemma EnumerationCoversStore(rows: seq<Task>, tasks: map<int, Task>)
    requires Enumerates(rows, tasks)
    ensures |rows| == |tasks|
  {
    DistinctIdsCount(rows);
    forall id | id in tasks.Keys ensures id in Ids(rows) {
      var i :| 0 <= i < |rows| && rows[i].id == id;
    }
    assert Ids(rows) == tasks.Keys;
  }

  /** With no filter present, the count of the list response is the number of stored tasks. */
  lemma ListWithoutFiltersCountsStore(rows: seq<Task>, tasks: map<int, Task>, q: ListQuery)
    requires Enumerates(rows, tasks)
    requires q.page >= 1 && q.pageSize >= 0
    requires q.isCompleted.None? && q.priority.None? && q.dueBefore.None?
    ensures GetTasks(rows, q).totalCount == |tasks|
  {
    NoFiltersCountsEveryRow(rows, q);
    EnumerationCoversStore(rows, tasks);
  }

  /** Every item of a list response is the response of a stored task that matches the filters. */
  lemma ListedTasksAreStored(rows: seq<Task>, tasks: map<int, Task>, q: ListQuery, i: nat)
    requires Enumerates(rows, tasks)
    requires q.page >= 1 && q.pageSize >= 0
    requires i < |GetTasks(rows, q).tasks|
    ensures exists id :: id in tasks && Matches(q, tasks[id]) && GetTasks(rows, q).tasks[i] == ToTaskResponse(tasks[id])
  {
    ListedItemsMatchFilters(rows, q, i);
    var t :| t in rows && Matches(q, t) && GetTasks(rows, q).tasks[i] == ToTaskResponse(t);
    var j :| 0 <= j < |rows| && rows[j] == t;
    assert tasks[t.id] == t;
  }

  // ---------------------------------------------------------------------------------------
  // Clients: the handlers' contracts compose
  // ---------------------------------------------------------------------------------------

  /** Creating a task and fetching it by the returned id yields the request's fields, a
      fresh completion flag and two equal stamps. */
  method CreateThenGet(store: TaskStore, request: CreateTaskRequest, now: int)
    returns (created: Outcome, fetched: Outcome)
    requires store.Valid()
    modifies store
    ensures DueDateInPast(request, now) ==> created.BadRequest? && store.tasks == old(store.tasks)
    ensures !DueDateInPast(request, now) ==>
              && created.Created? && fetched == Ok(created.body)
              && created.body.title == request.title && created.body.description == request.description
              && created.body.priority == request.priority && created.body.dueDate == request.dueDate
              && !created.body.isCompleted
              && created.body.createdAt == created.body.updatedAt == now
  {
    created := store.CreateTask(request, now);
    fetched := NotFound;
    if created.Created? {
      fetched := store.GetTask(created.body.id);
    }
  }

  /** After a successful delete, fetching the same id is NotFound, and deleting it again is
      NotFound too. */
  method DeleteThenGet(store: TaskStore, id: int) returns (deleted: Outcome, fetched: Outcome, again: Outcome)
    requires store.Valid()
    modifies store
    ensures deleted == (if id in old(store.tasks) then NoContent else NotFound)
    ensures fetched == NotFound && again == NotFound
  {
    deleted := store.DeleteTask(id);
    fetched := store.GetTask(id);
    again := store.DeleteTask(id);
  }
}
