# Task Management API — a verified model of the task controller and mapper

This project models the core of a small task-tracking REST API. A task has a title, an
optional description, a priority (Low, Medium, High), an optional due date, a completion
flag and two timestamps. The project models two parts:

- the tasks controller. Its list endpoint filters, sorts, counts and pages the tasks. It also
  has the get, create, update and delete handlers.
- the mapper. It converts between the stored entity, the create and update requests, and the
  response body.

Modules:

- `TaskModels` (models.dfy): the row value `Task`, the request and response contracts,
  `Priority` with its assumed ordinal, and the `TaskItem` entity object that the update
  handler changes in place.
- `TaskMapper` (mapper.dfy): `ToTaskResponse`, `ToTaskItem`, and `UpdateTaskItem` (a method
  that assigns the fields of a `TaskItem`). `ApplyUpdate` states on values what
  `UpdateTaskItem` does.
- `TaskQuery` (query.dfy): the list query as pure functions over the rows, in the order the
  store gives them. The three optional `Where` steps; the `sortBy`/`order` resolution and
  the sort; `Skip`/`Take` paging; the response. This module also holds the 32-bit offset as
  the source computes it (see Findings).
- `TasksController` (controller.dfy): the `TaskStore` class. It holds the Tasks table as a
  `map<int, Task>` and a counter that stands in for the identity column. Its methods
  `GetTask`, `CreateTask`, `UpdateTask` and `DeleteTask` return an `Outcome`:
  `Ok | Created | NotFound | BadRequest | NoContent`. This module also relates the list query
  to the store, and has two client methods that combine the handlers.

Representation choices:

- Timestamps are integer ticks. A nullable value is an `Option`. "Now" is a parameter of
  every handler that reads the clock.
- The `Priority` enum declaration is not part of this model. Its ordinals are assumed to be
  Low = 0, Medium = 1, High = 2. The table stores priority as an integer
  (TaskManagementAPI/Migrations/20251003061224_UpdateSchema.cs:25), so sorting by priority
  sorts by these ordinals.
- The counter `nextId` models the identity column
  (TaskManagementAPI/Migrations/20251003061224_UpdateSchema.cs:52). A new row gets a value
  larger than every id issued before.
- The data context (TaskManagementAPI/Data/TaskDbContext.cs:10) is replaced by the
  `tasks` map.
- For the list query, the rows are a sequence that `Enumerates` the map: every stored task
  exactly once, in an order the store chooses afresh for each request.

## Model

| member | source | states |
|---|---|---|
| `TaskModels.Ordinal` | TaskManagementAPI/Controllers/TaskController.cs:85 | the assumed integer value of each priority: Low, Medium and High get 0, 1 and 2, one each |
| `TaskModels.TaskItem.constructor` | TaskManagementAPI/Controllers/TaskController.cs:227 | loading a row by key gives an entity object whose fields are that row |
| `TaskMapper.ToTaskResponse` | TaskManagementAPI/Mappers/TaskMapper.cs:9-22 | all eight fields (id, title, description, priority, due date, completion, both stamps) are copied unchanged |
| `TaskMapper.ToTaskResponseIsLossless` | TaskManagementAPI/Mappers/TaskMapper.cs:9-22 | two entities have the same response exactly when they are the same entity |
| `TaskMapper.ToTaskItem` | TaskManagementAPI/Mappers/TaskMapper.cs:24-36 | title, description, priority and due date come from the request; completion is false; the id keeps its default 0; the stamps are the two clock reads |
| `TaskMapper.ToTaskItemTimestamps` | TaskManagementAPI/Mappers/TaskMapper.cs:33-34 | with clock reads that do not go backwards, createdAt <= updatedAt; with one instant, they are equal |
| `TaskMapper.ApplyUpdate` | TaskManagementAPI/Mappers/TaskMapper.cs:38-46 | title, description, priority, due date and completion come from the request; updatedAt is now; id and createdAt are kept; any due date is accepted |
| `TaskMapper.ApplyUpdateIsIdempotent` | TaskManagementAPI/Mappers/TaskMapper.cs:38-46 | applying the same update twice at one instant equals applying it once |
| `TaskMapper.ApplyUpdateForgetsOldValues` | TaskManagementAPI/Mappers/TaskMapper.cs:40-45 | the result depends on the old row only through its id and createdAt |
| `TaskMapper.ApplyUpdateAdvancesStamp` | TaskManagementAPI/Mappers/TaskMapper.cs:45 | if the clock has not gone back, the update keeps createdAt <= updatedAt and does not decrease updatedAt |
| `TaskMapper.UpdateTaskItem` | TaskManagementAPI/Mappers/TaskMapper.cs:38-46 | the entity object afterwards holds exactly `ApplyUpdate` of what it held before |
| `TaskQuery.Where` | TaskManagementAPI/Controllers/TaskController.cs:73 | keeps each row that satisfies the condition, as often as it occurs, and no other row |
| `TaskQuery.ApplyFilters` | TaskManagementAPI/Controllers/TaskController.cs:72-79 | the chained optional filters keep exactly the rows that match every present filter; a null due date fails `dueBefore` |
| `TaskQuery.Matching` | TaskManagementAPI/Controllers/TaskController.cs:72-79 | reference AND-filter: every kept row is a row that matches, and every matching row is kept |
| `TaskQuery.FiltersCombineWithAnd` | TaskManagementAPI/Controllers/TaskController.cs:72-79 | the three chained `Where` steps equal one pass with the AND of the present filters, in the same order |
| `TaskQuery.MatchingWithoutFilters` | TaskManagementAPI/Controllers/TaskController.cs:69-79 | with no filter present, every row is kept |
| `TaskQuery.MatchingDependsOnFiltersOnly` | TaskManagementAPI/Controllers/TaskController.cs:72-79 | the filtered rows do not depend on page, page size, sort field or order |
| `TaskQuery.ToLower` | TaskManagementAPI/Controllers/TaskController.cs:82 | same length; each character is lower-cased |
| `TaskQuery.ResolveSortKey` | TaskManagementAPI/Controllers/TaskController.cs:82-87 | due date exactly when `sortBy` equals "duedate" ignoring case; priority exactly when it equals "priority" ignoring case; the creation stamp for every other string |
| `TaskQuery.InvalidFieldFallsBack` | TaskManagementAPI/Controllers/TaskController.cs:86 | "invalidField" selects the creation stamp and raises no error |
| `TaskQuery.FieldNamesIgnoreCase` | TaskManagementAPI/Controllers/TaskController.cs:82-85 | "DueDate" selects the due date and "PRIORITY" the priority |
| `TaskQuery.PrecedesIsTotalPreorder` | TaskManagementAPI/Controllers/TaskController.cs:84-86 | each key order, ascending or descending, is total and transitive |
| `TaskQuery.Insert` | TaskManagementAPI/Controllers/TaskController.cs:84-86 | inserting into a sorted sequence keeps it sorted and adds exactly one element |
| `TaskQuery.SortBy` | TaskManagementAPI/Controllers/TaskController.cs:84-86 | `OrderBy`/`OrderByDescending` on one key: a permutation that is sorted by the key in that direction |
| `TaskQuery.OrderBy` | TaskManagementAPI/Controllers/TaskController.cs:82-87 | a permutation of the rows, sorted by the resolved key; non-decreasing when `order` is exactly "asc", non-increasing otherwise |
| `TaskQuery.Ordered` | TaskManagementAPI/Controllers/TaskController.cs:69-87 | the filtered and sorted query is a permutation of the matching rows, sorted by key and direction |
| `TaskQuery.SortedPermutationsAgree` | TaskManagementAPI/Controllers/TaskController.cs:84-86 | when no two different rows tie on the key, two sorted permutations of the same rows are the same sequence: the sort has only one possible result |
| `TaskQuery.MatchingCounts` | TaskManagementAPI/Controllers/TaskController.cs:72-79 | the reference filter keeps each matching row exactly as often as it occurs and drops every other row |
| `TaskQuery.MatchingIgnoresEnumeration` | TaskManagementAPI/Controllers/TaskController.cs:69-79 | two enumerations of the same rows have the same matching rows, counted with multiplicity |
| `TaskQuery.OrderedIgnoresEnumeration` | TaskManagementAPI/Controllers/TaskController.cs:69-87 | when no two different matching rows tie on the sort key, every enumeration of the table gives the same sorted query |
| `TaskQuery.DueDateOrderAmongDatedRows` | TaskManagementAPI/Controllers/TaskController.cs:84 | sorting by due date orders the rows that have a due date by date, ascending or descending |
| `TaskQuery.UnknownSortFieldListsNewestFirst` | TaskManagementAPI/Controllers/TaskController.cs:86 | an unknown `sortBy` with an `order` other than "asc" lists by creation stamp, newest first |
| `TaskQuery.Skip` | TaskManagementAPI/Controllers/TaskController.cs:92 | drops the first n rows (none when n <= 0) and keeps the rest in order |
| `TaskQuery.Take` | TaskManagementAPI/Controllers/TaskController.cs:93 | the first min(n, length) rows (none when n <= 0) |
| `TaskQuery.SkipCount` | TaskManagementAPI/Controllers/TaskController.cs:92 | the offset (page - 1) * pageSize in unbounded arithmetic, never negative for page >= 1 and pageSize >= 0 |
| `TaskQuery.Page` | TaskManagementAPI/Controllers/TaskController.cs:91-94 | length min(pageSize, max(0, count - offset)); item i is row offset + i |
| `TaskQuery.ToResponses` | TaskManagementAPI/Controllers/TaskController.cs:101 | one response per row, in order, each `ToTaskResponse` of its row |
| `TaskQuery.GetTasks` | TaskManagementAPI/Controllers/TaskController.cs:60-103 | echoes page and pageSize; totalCount is the number of matching rows; the page has length min(pageSize, max(0, totalCount - (page-1)*pageSize)); item i is the response of sorted match (page-1)*pageSize + i |
| `TaskQuery.ListedItemsMatchFilters` | TaskManagementAPI/Controllers/TaskController.cs:72-101 | every listed item is the response of one of the rows that matches every present filter |
| `TaskQuery.OrderedLength` | TaskManagementAPI/Controllers/TaskController.cs:82-90 | sorting neither adds nor drops rows: the count taken after sorting is the number of matching rows |
| `TaskQuery.OrderedMatches` | TaskManagementAPI/Controllers/TaskController.cs:69-87 | every row of the sorted query is a stored row that matches the filters |
| `TaskQuery.TotalCountIgnoresPaging` | TaskManagementAPI/Controllers/TaskController.cs:90-94 | totalCount is the same for every page and page size |
| `TaskQuery.NoFiltersCountsEveryRow` | TaskManagementAPI/Controllers/TaskController.cs:69-90 | with no filter present, totalCount is the number of rows |
| `TaskQuery.MatchOnItsPage` | TaskManagementAPI/Controllers/TaskController.cs:91-94 | with one enumeration of the rows for every request, sorted match k * pageSize + j is item j of page k + 1 |
| `TaskQuery.EveryMatchIsOnItsPage` | TaskManagementAPI/Controllers/TaskController.cs:84-94 | when no two different matching rows tie on the sort key, sorted match k * pageSize + j is item j of page k + 1, whatever order the store enumerates the table in for that request |
| `TaskQuery.TiedPairKeepsEnumerationOrder` | TaskManagementAPI/Controllers/TaskController.cs:84-86 | two rows with equal creation stamps, sorted by creation stamp in descending order, stay in the order the store gave them |
| `TaskQuery.TiesMayRepeatAcrossPages` | TaskManagementAPI/Controllers/TaskController.cs:84-93 | with ties on the sort key nothing is promised across requests: two rows created at the same instant, enumerated in opposite orders for page 1 and page 2 of size 1, give the same row on both pages and the other row on neither |
| `TaskQuery.SingleRowPage` | TaskManagementAPI/Controllers/TaskController.cs:91-94 | a page of size one holds exactly the sorted match at position page - 1 |
| `TaskQuery.FirstPageIsPrefix` | TaskManagementAPI/Controllers/TaskController.cs:91-94 | page 1 is the first min(pageSize, count) sorted matches, in order |
| `TaskQuery.FirstPageNewestFirst` | TaskManagementAPI/Controllers/TaskController.cs:86-94 | page 1 of a descending sort by creation stamp lists its items newest first |
| `TaskQuery.DefaultSortsByCreation` | TaskManagementAPI/Controllers/TaskController.cs:66-67 | the default `sortBy` "CreatedAt" selects the creation stamp and the default `order` "desc" is descending |
| `TaskQuery.DefaultListingIsNewestFirst` | TaskManagementAPI/Controllers/TaskController.cs:64-101 | a request with no parameters echoes page 1 and size 10, counts every row, and lists the first min(10, count) sorted rows, newest first |
| `TaskQuery.Wrap32` | TaskManagementAPI/Controllers/TaskController.cs:92 | two's-complement wrap-around into the 32-bit range, the identity on values already in range |
| `TaskQuery.SkipCountAsWritten` | TaskManagementAPI/Controllers/TaskController.cs:92 | the offset as the source computes it, in 32-bit `int`; it agrees with the intended offset whenever that fits in 32 bits |
| `TaskQuery.PageAsWritten` | TaskManagementAPI/Controllers/TaskController.cs:92-93 | the page as the source computes it: no result (the store rejects the query) exactly when the wrapped offset or the page size is negative; where the offset does not wrap, it is the corrected `Page` |
| `TaskQuery.PageOffsetOverflows` | TaskManagementAPI/Controllers/TaskController.cs:92 | page 65537 of size 65536 should be empty, but the offset as written wraps to 0 and the first page comes back |
| `TaskQuery.PagesPastTheEndAreEmpty` | TaskManagementAPI/Controllers/TaskController.cs:91-94 | with the corrected offset, a page that starts past the last matching row is empty |
| `TasksController.TaskStore.constructor` | TaskManagementAPI/Data/TaskDbContext.cs:10 | an empty table whose identity counter starts at 1 |
| `TasksController.TaskStore.GetTask` | TaskManagementAPI/Controllers/TaskController.cs:132-140 | NotFound exactly when the id is absent; otherwise Ok with the response of the stored task; the store is not changed |
| `TasksController.TaskStore.CreateTask` | TaskManagementAPI/Controllers/TaskController.cs:175-186 | a due date strictly before now gives BadRequest with the due-date message and leaves the store unchanged; otherwise the table gains exactly one new key, larger than every earlier id, holding `ToTaskItem` of the request with that id, and the response is Created with it |
| `TasksController.TaskStore.UpdateTask` | TaskManagementAPI/Controllers/TaskController.cs:225-236 | an absent id gives NotFound and leaves the store unchanged; otherwise only that entry changes, to `ApplyUpdate` of it, and the response is Ok with the new row |
| `TasksController.TaskStore.DeleteTask` | TaskManagementAPI/Controllers/TaskController.cs:254-264 | an absent id gives NotFound and leaves the store unchanged; otherwise exactly that key is removed and the response is NoContent |
| `TasksController.EnumerationCoversStore` | TaskManagementAPI/Controllers/TaskController.cs:69 | a listing of the store has exactly one row per stored task |
| `TasksController.ListWithoutFiltersCountsStore` | TaskManagementAPI/Controllers/TaskController.cs:69-90 | with no filter present, totalCount is the number of stored tasks |
| `TasksController.ListedTasksAreStored` | TaskManagementAPI/Controllers/TaskController.cs:96-101 | every listed item is the response of a stored task that matches the filters |
| `TasksController.CreateThenGet` | TaskManagementAPI/Controllers/TaskController.cs:177-185 | fetching a newly created task returns its body: the request's fields, not completed, both stamps equal to now |
| `TasksController.DeleteThenGet` | TaskManagementAPI/Controllers/TaskController.cs:256-263 | after a delete, a get of that id is NotFound and a second delete is NotFound |

## Findings

| source | as written | input that shows it | evidently intended | confidence | as-written member | corrected member |
|---|---|---|---|---|---|---|
| TaskManagementAPI/Controllers/TaskController.cs:92 | `(page - 1) * pageSize` is computed in unchecked 32-bit `int` and wraps on overflow | page = 65537, pageSize = 65536: the offset 2^32 wraps to 0, so the first 65536 matching tasks come back instead of an empty page (other inputs wrap to a negative offset, which the store rejects) | the offset of page `page` is (page - 1) * pageSize, so a page past the end is empty | medium, not executed | `TaskQuery.SkipCountAsWritten` and `TaskQuery.PageAsWritten` (shown by `TaskQuery.PageOffsetOverflows`) | `TaskQuery.SkipCount` (used by `TaskQuery.GetTasks`; `TaskQuery.Page`, `TaskQuery.PagesPastTheEndAreEmpty`) |

## Left out

- TaskQuery.GetTasks: requires page >= 1 and pageSize >= 0. The source does not check these values. For a smaller page or a negative size, the result depends on the store's OFFSET/LIMIT handling, which this model does not cover.
- TaskQuery.SortBy: the contract says nothing about how rows with equal keys are ordered. The store does not fix that order either, and may order ties differently on each request; the model lets each request choose its own enumeration of the table.
- TaskQuery.EveryMatchIsOnItsPage: holds only when no two different matching rows tie on the sort key. With ties, two requests may put a row on two pages or on none (`TaskQuery.TiesMayRepeatAcrossPages`), since the source sorts on one non-unique key before paging.
- TaskQuery.KeyLe: a null due date is treated as later than every date. This matches PostgreSQL's default: nulls last when ascending, first when descending. The source does not fix this. `DueDateOrderAmongDatedRows` states the order that holds whatever the store does with nulls.
- TaskQuery.ResolveSortKey: lower-cases ASCII letters only. `string.ToLower()` depends on the culture: under a Turkish culture, "PRIORITY" lower-cases with a dotless i and falls back to the creation stamp. That case is not modelled.
- TaskModels.Ordinal: the ordinals of the priority enum are an assumption; the enum declaration is not part of this model.
- TasksController.TaskStore.CreateTask: the source reads the clock three times (the due-date check and the two stamps). The model uses one instant for all three, so a created task's stamps are equal. `ToTaskItem` keeps two separate clock parameters.
- TasksController.TaskStore.UpdateTask: `createdAt <= updatedAt` is kept only when the clock has not gone back since the row was created. The model states this as a conditional, not as part of `Valid()`.
- TasksController.TaskStore.CreateTask: timestamps are modelled at one precision. The store's `timestamp with time zone` columns keep microseconds while the clock has 100 ns ticks, and the Created response comes from the in-memory entity. So the response's stamps can differ from those a later read returns below the microsecond; the contract states them equal.
- TasksController.TaskStore.UpdateTask: as for creation, the Ok response comes from the in-memory entity, so its `updatedAt` can differ from the stored one below the microsecond; the contract states them equal.
- TasksController.CreateThenGet: `fetched == Ok(created.body)` holds only to the microsecond in the source, for the reason above.
- TasksController.TaskStore.CreateTask: the identity column is 32-bit; the model's counter is unbounded, so id exhaustion is not modelled.
- Validation by model binding is not modelled. This covers the required title, the title limit of 200 characters and the description limit of 1000. These live in attributes on the request and entity types, which are not part of this model. A request that fails them is answered 400 before a handler runs.
- A missing, empty or null `sortBy`/`order` string is not modelled: the model's strings are never null. How model binding treats `sortBy=` is not part of this model.
- The async/await structure, `SaveChangesAsync`, query translation, and concurrent requests with the store's isolation are not modelled. Each handler is one atomic step on the map.
- Store failures (500 responses) are not modelled.
- `CreatedAtAction`'s Location header and the HTTP status plumbing are not modelled; outcomes are a datatype.
- TaskManagementAPI/Program.cs (hosting, CORS, Swagger, the JSON enum converter, startup migration) is not part of this model. Neither are the migrations, beyond the identity annotation and the integer priority column.
- The older `Task Management API/` tree is not part of this model; only the `TaskManagementAPI/` controller and mapper are modelled.
