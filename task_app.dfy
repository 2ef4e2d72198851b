/**
 * The request handlers over the module-level task list: a store object whose one
 * field is the list, one method per route, and the two loops the handlers run
 * over the list (the search for the first matching record and the rebuilding
 * comprehension of the delete).
 */
module TaskApp {
  import opened TaskModel

  /** The search of update_task: scan in storage order, stop at the first record with the id. */
  method FindFirst(tasks: seq<Task>, taskId: int) returns (found: Option<nat>)
    ensures found == FirstWithId(tasks, taskId)
    // The two clauses below follow from FirstWithId's contract; they are kept for callers.
    ensures found.Some? ==> found.value < |tasks| && tasks[found.value].id == taskId
    ensures found.None? <==> !HasId(tasks, taskId)
  {
    var i := 0;
    while i < |tasks|
      invariant 0 <= i <= |tasks|
      invariant forall j :: 0 <= j < i ==> tasks[j].id != taskId
    {
      if tasks[i].id == taskId {
        return Some(i);
      }
      i := i + 1;
    }
    return None;
  }

  /** The comprehension of delete_task: keep, in order, every record with another id. */
  method KeepOthers(tasks: seq<Task>, taskId: int) returns (kept: seq<Task>)
    ensures kept == WithoutId(tasks, taskId)
    ensures !HasId(kept, taskId)
  {
    kept := [];
    var i := 0;
    while i < |tasks|
      invariant 0 <= i <= |tasks|
      invariant kept == WithoutId(tasks[..i], taskId)
    {
      assert tasks[..i + 1] == tasks[..i] + [tasks[i]];
      WithoutIdAppend(tasks[..i], [tasks[i]], taskId);
      assert WithoutId([tasks[i]], taskId) == if tasks[i].id == taskId then [] else [tasks[i]];
      if tasks[i].id != taskId {
        kept := kept + [tasks[i]];
      }
      i := i + 1;
    }
    assert tasks[..i] == tasks;
    WithoutIdRemovesAll(tasks, taskId);
  }

  /** The process-wide task list and the handlers that read and change it. */
  class TaskStore {
    var tasks: seq<Task>

    /**
     * A standalone invariant: no method requires it, and each keeps it, which is
     * the promise that ids stay positive and descriptions non-empty.
     */
    ghost predicate Valid()
      reads this
    {
      WellFormed(tasks)
    }

    /** The list as the application starts: empty. */
    constructor ()
      ensures tasks == [] && Valid()
    {
      tasks := [];
    }

    /** GET /tasks: the whole list, in storage order, with status 200. */
    method GetTasks() returns (r: Response)
      ensures r.status == 200 && r.body.ListBody?
      ensures r.body.records == tasks
    {
      r := Response(200, ListBody(tasks));
    }

    /**
     * POST /tasks: a truthy `task` appends {id: length + 1, task, completed: false}
     * and answers 201 with it; anything else answers 400 and changes nothing.
     */
    method AddTask(task: Option<string>) returns (r: Response)
      modifies this
      ensures tasks == AfterAdd(old(tasks), task)
      ensures Truthy(task) ==>
                r == Response(201, TaskBody(Task(|old(tasks)| + 1, task.value, false))) &&
                tasks == old(tasks) + [r.body.record]
      ensures !Truthy(task) ==> r == Response(400, ErrorBody(InvalidTask)) && tasks == old(tasks)
      ensures old(Valid()) ==> Valid()
    {
      if Truthy(task) {
        var newTask := Task(|tasks| + 1, task.value, false);
        tasks := tasks + [newTask];
        r := Response(201, TaskBody(newTask));
      } else {
        r := Response(400, ErrorBody(InvalidTask));
      }
      if old(Valid()) {
        OperationsPreserveWellFormed(old(tasks), task, 0, None);
      }
    }

    /**
     * PUT /tasks/<id>: the first record with the id takes the payload's `completed`
     * (or keeps its own) and is answered with 200; no such record answers 404.
     */
    method UpdateTask(taskId: int, completed: Option<bool>) returns (r: Response)
      modifies this
      ensures tasks == AfterUpdate(old(tasks), taskId, completed)
      ensures !HasId(old(tasks), taskId) ==>
                r == Response(404, ErrorBody(TaskNotFound)) && tasks == old(tasks)
      ensures HasId(old(tasks), taskId) ==>
                var i := FirstWithId(old(tasks), taskId).value;
                |tasks| == |old(tasks)| &&
                tasks[i] == old(tasks)[i].(completed := completed.GetOr(old(tasks)[i].completed)) &&
                (forall j :: 0 <= j < |tasks| && j != i ==> tasks[j] == old(tasks)[j]) &&
                r == Response(200, TaskBody(tasks[i]))
      ensures completed.None? ==> tasks == old(tasks)
      ensures old(Valid()) ==> Valid()
    {
      var found := FindFirst(tasks, taskId);
      match found {
        case None =>
          r := Response(404, ErrorBody(TaskNotFound));
        case Some(i) =>
          tasks := tasks[i := tasks[i].(completed := completed.GetOr(tasks[i].completed))];
          r := Response(200, TaskBody(tasks[i]));
      }
      AfterUpdateNoPayload(old(tasks), taskId);
      if old(Valid()) {
        OperationsPreserveWellFormed(old(tasks), None, taskId, completed);
      }
    }

    /**
     * DELETE /tasks/<id>: the list is rebuilt without every record with the id;
     * the answer is 204 whether or not one existed.
     */
    method DeleteTask(taskId: int) returns (r: Response)
      modifies this
      ensures r == Response(204, EmptyBody)
      ensures tasks == WithoutId(old(tasks), taskId)
      ensures !HasId(tasks, taskId)
      ensures !HasId(old(tasks), taskId) ==> tasks == old(tasks)
      ensures old(Valid()) ==> Valid()
    {
      tasks := KeepOthers(tasks, taskId);
      r := Response(204, EmptyBody);
      if !HasId(old(tasks), taskId) {
        WithoutIdAbsent(old(tasks), taskId);
      }
      if old(Valid()) {
        OperationsPreserveWellFormed(old(tasks), None, taskId, None);
      }
    }
  }

  /** Create, complete, delete, list: the record comes back with id 1 and is then gone. */
  method CreateUpdateDeleteScenario() returns (created: Response, updated: Response, deleted: Response, listed: Response)
    ensures created == Response(201, TaskBody(Task(1, "Test task", false)))
    ensures updated == Response(200, TaskBody(Task(1, "Test task", true)))
    ensures deleted == Response(204, EmptyBody)
    ensures listed == Response(200, ListBody([]))
  {
    var store := new TaskStore();
    created := store.AddTask(Some("Test task"));
    assert HasId(store.tasks, 1) by { assert store.tasks[0].id == 1; }
    updated := store.UpdateTask(1, Some(true));
    deleted := store.DeleteTask(1);
    listed := store.GetTasks();
  }

  /** Two adds are listed in the order they were made, with ids 1 and 2. */
  method ListingOrderScenario() returns (listed: Response)
    ensures listed == Response(200, ListBody([Task(1, "Test task 1", false), Task(2, "Test task 2", false)]))
  {
    var store := new TaskStore();
    var _ := store.AddTask(Some("Test task 1"));
    var _ := store.AddTask(Some("Test task 2"));
    listed := store.GetTasks();
  }

  /** A payload without `task`, or with an empty one, is refused and nothing is stored. */
  method InvalidTaskScenario() returns (missing: Response, empty: Response, listed: Response)
    ensures missing == Response(400, ErrorBody(InvalidTask))
    ensures empty == Response(400, ErrorBody(InvalidTask))
    ensures listed == Response(200, ListBody([]))
  {
    var store := new TaskStore();
    missing := store.AddTask(None);
    empty := store.AddTask(Some(""));
    listed := store.GetTasks();
  }

  /**
   * The id rule reissues an id: after deleting record 1 of two, the next add gets
   * id 2 again. An update then reaches only the first record with id 2, and the
   * next delete of 2 removes both.
   */
  method IdReuseScenario() returns (afterAdd: Response, updated: Response, afterDelete: Response)
    ensures afterAdd == Response(200, ListBody([Task(2, "b", false), Task(2, "c", false)]))
    ensures updated == Response(200, TaskBody(Task(2, "b", true)))
    ensures afterDelete == Response(200, ListBody([]))
  {
    var store := new TaskStore();
    var _ := store.AddTask(Some("a"));
    var _ := store.AddTask(Some("b"));
    assert store.tasks == [Task(1, "a", false), Task(2, "b", false)];
    assert WithoutId([Task(2, "b", false)], 1) == [Task(2, "b", false)];
    var _ := store.DeleteTask(1);
    var _ := store.AddTask(Some("c"));
    afterAdd := store.GetTasks();
    assert store.tasks[0].id == 2;
    updated := store.UpdateTask(2, Some(true));
    assert store.tasks == [Task(2, "b", true), Task(2, "c", false)];
    assert WithoutId([Task(2, "c", false)], 2) == [];
    var _ := store.DeleteTask(2);
    afterDelete := store.GetTasks();
  }
}
