# Task list service: the in-memory task store

This model covers the in-memory variant of a small task-management web service.
One process-wide list holds task records `{id, task, completed}`. Four handlers
work on it:

- `GET /tasks` returns the list in storage order.
- `POST /tasks` appends a record when the payload's `task` is truthy. The new record
  gets `id = len(tasks) + 1` and `completed = False`, and the answer is 201. Any other
  payload gets 400 `{"error": "Invalid task"}`.
- `PUT /tasks/<id>` finds the first record with that id. It sets the record's
  `completed` from the payload, or keeps the old value when the payload has no
  `completed`, and answers 200 with the record. When no record has the id, the
  answer is 404 `{"error": "Task not found"}`.
- `DELETE /tasks/<id>` rebuilds the list without every record with that id. It
  always answers 204.

The model has two modules.

- `TaskModel` (`task_model.dfy`) holds the values and the specification. These are
  the record and response datatypes, the payload's truthiness, the search for the
  first record with an id (`FirstWithId`), the filtered list (`WithoutId`), and the
  list after each operation (`AfterAdd`, `AfterUpdate`, `AddAll`). It also has the
  lemmas that state what these promise.
- `TaskApp` (`task_app.dfy`) holds the class `TaskStore`. Its field `tasks: seq<Task>`
  is the global list, and it has one method per handler. Each method's
  postcondition ties the new list and the response to the old list. Two loop methods
  model the generator scan of `update_task` (`FindFirst`) and the comprehension of
  `delete_task` (`KeepOthers`). Four client methods run the handlers on a fresh
  store. `ListingOrderScenario` replays the repository's `test_get_tasks`.
  `CreateUpdateDeleteScenario` chains `test_update_task` and `test_delete_task` on
  one store. `InvalidTaskScenario` and `IdReuseScenario` show the 400 branch of add
  and the reissued id.

The JSON payloads are abstract. For add, `task` is an `Option<string>`: `None`
stands for a missing key or a JSON null, and `Truthy` holds for a present,
non-empty string. For update, `completed` is an `Option<bool>`.

Three behaviours of this code are worth noting:

- Delete always answers 204, also for an id that no record has.
- An update whose payload has no `completed` keeps the old value and answers 200.
- Ids come from `len + 1`, not from a counter, so an id can be reissued
  after a deletion that is not at the end. `IdReuseScenario` shows two records with
  id 2. The preserved invariant (`WellFormed`) therefore says positive ids and
  non-empty descriptions, not distinct ids.

## Model

| member | source | states |
|---|---|---|
| TaskModel.FirstWithId | app.py:32 | the index returned holds a record with the id and no earlier record has it; None exactly when no record has the id |
| TaskModel.AddAllIds | app.py:24-25 | a run of adds with non-empty descriptions appends records with ids continuing from the current length (1..n from empty), in insertion order, leaving earlier records untouched |
| TaskModel.SameIdsSameFirst | app.py:32 | the first match depends only on the ids in place, so changing `completed` cannot change which record an update reaches |
| TaskModel.AfterUpdateKeepsIdsAndText | app.py:34 | an update keeps the length and every record's id and description |
| TaskModel.AfterUpdateIdempotent | app.py:32-34 | repeating an update with the same payload changes nothing further |
| TaskModel.AfterUpdateNoPayload | app.py:34 | a payload without `completed` leaves the list unchanged |
| TaskModel.WithoutIdMembers | app.py:42 | a record is in the list after delete exactly when it was in it before and has a different id |
| TaskModel.WithoutIdAppend | app.py:42 | the delete distributes over concatenation, so the surviving records keep their relative order |
| TaskModel.WithoutIdRemovesAll | app.py:42 | no record with the id is left, and every record with another id is still there |
| TaskModel.WithoutIdAbsent | app.py:42 | deleting an id that no record has leaves the list unchanged |
| TaskModel.WithoutIdIdempotent | app.py:42 | deleting the same id twice gives the same list as deleting it once |
| TaskModel.DeleteThenUpdateNotFound | app.py:32-42 | after a delete of an id, an update of that id finds no record (the 404 branch) |
| TaskModel.OperationsPreserveWellFormed | app.py:23-42 | add, update and delete all keep every id positive and every description non-empty |
| TaskApp.FindFirst | app.py:32 | the scan in storage order returns the first index whose record has the id, or None exactly when there is none |
| TaskApp.KeepOthers | app.py:42 | the comprehension returns the filtered list in order, with no record of that id left |
| TaskApp.TaskStore.constructor | app.py:7 | the store starts with an empty list |
| TaskApp.TaskStore.GetTasks | app.py:15-17 | status 200 with exactly the stored list, in storage order |
| TaskApp.TaskStore.AddTask | app.py:20-27 | truthy `task`: status 201, the record {len+1, task, false} is appended last and earlier records are unchanged; otherwise status 400 "Invalid task" and the list is unchanged; the invariant is kept |
| TaskApp.TaskStore.UpdateTask | app.py:30-36 | no record with the id: status 404 "Task not found", list unchanged; otherwise only `completed` of the first record with the id changes (payload value, or the old one when absent), other records and the length stay, status 200 with the updated record |
| TaskApp.TaskStore.DeleteTask | app.py:39-43 | always status 204; the new list is the old one without every record with the id, in order; an absent id leaves it unchanged |
| TaskApp.CreateUpdateDeleteScenario | tests/test_app.py:45-62 | the update and delete tests chained on one fresh store: add gives 201 {1, "Test task", false}, update to true gives 200 {1, "Test task", true}, delete gives 204, listing gives [] |
| TaskApp.ListingOrderScenario | tests/test_app.py:34-42 | two adds are listed in creation order with ids 1 and 2 |
| TaskApp.InvalidTaskScenario | app.py:22-27 | a missing or empty `task` answers 400 "Invalid task" and stores nothing |
| TaskApp.IdReuseScenario | app.py:24-42 | add a, add b, delete 1, add c leaves two records with id 2; an update of 2 reaches only the first of them; a delete of 2 removes both |

## Left out

- Routing, `jsonify` serialisation, `request.json` parsing and `app.run` are framework plumbing. The handlers receive the payload's relevant entry already extracted. A body that is not JSON, which would raise on `.get`, is not modelled.
- The greeting handler `hello` returns a constant string and has nothing to verify.
- Payload values other than strings for `task` are not modelled. In Python, a falsy non-string `task` (a JSON null, `0`, `false`, `[]`, `{}`) gets 400 like a missing one, and a truthy non-string is stored as it is. The model covers null as `None`; the other non-strings are left out.
- Payload values other than booleans for `completed` are not modelled. Python stores any value there as it is, a JSON null included.
- The record is a value in a sequence. In Python, update writes the dictionary in place. Nothing else holds a reference to it across requests, so value semantics give the same observable behaviour.
- The tests import `db` and `Task`, which app.py does not define; a database-backed version is not modelled.
- Concurrent requests on the shared list are not modelled; each handler is one atomic step.
- The route converter `<int:task_id>` accepts only non-negative ids. The model accepts any integer id, which only widens the input domain.
