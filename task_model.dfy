/**
 * Values of the in-memory task store: the task records kept in the module-level
 * list, the responses the handlers produce, and the state transitions of the list
 * as pure functions, with the lemmas that state what each transition promises.
 */
module TaskModel {

  datatype Option<T> = None | Some(value: T) {
    /** The wrapped value, or `default` when there is none (Python's `dict.get(key, default)`). */
    function GetOr(default: T): T {
      match this
      case Some(v) => v
      case None => default
    }
  }

  /** One record of the list: the dictionary `{"id": …, "task": …, "completed": …}`. */
  datatype Task = Task(id: int, task: string, completed: bool)

  /** What a handler serialises: one record, the whole list, an error object, or nothing. */
  datatype Body =
    | TaskBody(record: Task)
    | ListBody(records: seq<Task>)
    | ErrorBody(error: string)
    | EmptyBody

  datatype Response = Response(status: int, body: Body)

  const InvalidTask: string := "Invalid task"
  const TaskNotFound: string := "Task not found"

  /**
   * Python truthiness of the payload's `task` entry. `None` stands for a missing
   * key or a JSON null; among strings only the empty one is falsy.
   */
  predicate Truthy(v: Option<string>) {
    v.Some? && v.value != ""
  }

  /** Some record of `s` carries the id `id`. */
  predicate HasId(s: seq<Task>, id: int) {
    exists j :: 0 <= j < |s| && s[j].id == id
  }

  /**
   * The invariant the handlers keep: every id is positive (ids are issued as
   * length + 1) and every description is non-empty (add rejects falsy ones).
   * Ids are NOT required to be distinct: the id rule can reissue one.
   */
  ghost predicate WellFormed(s: seq<Task>) {
    forall j :: 0 <= j < |s| ==> s[j].id >= 1 && s[j].task != ""
  }

  /**
   * Index of the first record with id `id`, the one the generator in
   * update_task stops at; None when there is none.
   */
  function FirstWithId(s: seq<Task>, id: int): (r: Option<nat>)
    ensures r.Some? ==> r.value < |s| && s[r.value].id == id
    ensures r.Some? ==> forall j :: 0 <= j < r.value ==> s[j].id != id
    ensures r.None? <==> !HasId(s, id)
  {
    if s == [] then None
    else if s[0].id == id then Some(0)
    else
      match FirstWithId(s[1..], id)
      case None => None
      case Some(k) =>
        assert forall j :: 1 <= j < k + 1 ==> s[j] == s[1..][j - 1];
        Some(k + 1)
  }

  /** The list rebuilt without any record whose id is `id`, in the original order. */
  function WithoutId(s: seq<Task>, id: int): seq<Task> {
    if s == [] then []
    else (if s[0].id == id then [] else [s[0]]) + WithoutId(s[1..], id)
  }

  /** The list after add_task: the new record appended when the payload is truthy. */
  function AfterAdd(s: seq<Task>, task: Option<string>): seq<Task> {
    if Truthy(task) then s + [Task(|s| + 1, task.value, false)] else s
  }

  /**
   * The list after update_task: the first record with the id gets the payload's
   * `completed`, or keeps its own when the payload has none.
   */
  function AfterUpdate(s: seq<Task>, id: int, completed: Option<bool>): seq<Task> {
    match FirstWithId(s, id)
    case None => s
    case Some(i) => s[i := s[i].(completed := completed.GetOr(s[i].completed))]
  }

  /** The list after one successful add per name, in order. */
  function AddAll(s: seq<Task>, names: seq<string>): seq<Task>
    decreases |names|
  {
    if names == [] then s else AddAll(AfterAdd(s, Some(names[0])), names[1..])
  }

  // ---------------------------------------------------------------- add

  /**
   * The id rule: a run of adds with non-empty descriptions appends records whose
   * ids continue from the current length, in insertion order; from an empty list
   * they are 1..n.
   */
  lemma {:induction false} AddAllIds(s: seq<Task>, names: seq<string>)
    requires forall i :: 0 <= i < |names| ==> names[i] != ""
    ensures |AddAll(s, names)| == |s| + |names|
    ensures AddAll(s, names)[..|s|] == s
    ensures forall i :: 0 <= i < |names| ==>
              AddAll(s, names)[|s| + i] == Task(|s| + i + 1, names[i], false)
    decreases |names|
  {
    if names != [] {
      var s' := AfterAdd(s, Some(names[0]));
      assert s' == s + [Task(|s| + 1, names[0], false)];
      AddAllIds(s', names[1..]);
      var r := AddAll(s, names);
      assert r == AddAll(s', names[1..]);
      assert r[..|s'|] == s';
      assert r[..|s|] == s' [..|s|];
      forall i | 0 <= i < |names|
        ensures r[|s| + i] == Task(|s| + i + 1, names[i], false)
      {
        if i == 0 {
          assert r[|s|] == r[..|s'|][|s|];
        } else {
          assert r[|s| + i] == r[|s'| + (i - 1)];
          assert names[1..][i - 1] == names[i];
        }
      }
    }
  }

  // ------------------------------------------------------------- update

  /** Two lists with the same ids at the same places have the same first match. */
  lemma SameIdsSameFirst(a: seq<Task>, b: seq<Task>, id: int)
    requires |a| == |b|
    requires forall j :: 0 <= j < |a| ==> a[j].id == b[j].id
    ensures FirstWithId(a, id) == FirstWithId(b, id)
  {
  }

  /**
   * Update changes at most the `completed` field of the first record with the id:
   * same length, and every id and description in place.
   */
  lemma AfterUpdateKeepsIdsAndText(s: seq<Task>, id: int, completed: Option<bool>)
    ensures |AfterUpdate(s, id, completed)| == |s|
    ensures forall j :: 0 <= j < |s| ==>
              AfterUpdate(s, id, completed)[j].id == s[j].id &&
              AfterUpdate(s, id, completed)[j].task == s[j].task
  {
  }

  /** Updating the same id with the same payload twice is the same as once. */
  lemma AfterUpdateIdempotent(s: seq<Task>, id: int, completed: Option<bool>)
    ensures AfterUpdate(AfterUpdate(s, id, completed), id, completed) == AfterUpdate(s, id, completed)
  {
    var once := AfterUpdate(s, id, completed);
    AfterUpdateKeepsIdsAndText(s, id, completed);
    SameIdsSameFirst(once, s, id);
  }

  /** A payload without `completed` leaves the list exactly as it was. */
  lemma AfterUpdateNoPayload(s: seq<Task>, id: int)
    ensures AfterUpdate(s, id, None) == s
  {
    match FirstWithId(s, id)
    case None =>
    case Some(i) =>
      assert s[i].(completed := s[i].completed) == s[i];
  }

  // ------------------------------------------------------------- delete

  /** A record survives the delete exactly when it was there and has another id. */
  lemma {:induction false} WithoutIdMembers(s: seq<Task>, id: int, t: Task)
    ensures t in WithoutId(s, id) <==> t in s && t.id != id
  {
    if s != [] {
      WithoutIdMembers(s[1..], id, t);
      assert s == [s[0]] + s[1..];
    }
  }

  /** The delete works record by record: it distributes over concatenation, so order is kept. */
  lemma {:induction false} WithoutIdAppend(a: seq<Task>, b: seq<Task>, id: int)
    ensures WithoutId(a + b, id) == WithoutId(a, id) + WithoutId(b, id)
  {
    if a == [] {
      assert a + b == b;
    } else {
      assert (a + b)[1..] == a[1..] + b;
      WithoutIdAppend(a[1..], b, id);
    }
  }

  /** No record with the id is left, and nothing else is lost. */
  lemma WithoutIdRemovesAll(s: seq<Task>, id: int)
    ensures !HasId(WithoutId(s, id), id)
    ensures forall j :: 0 <= j < |s| && s[j].id != id ==> s[j] in WithoutId(s, id)
  {
    var r := WithoutId(s, id);
    forall j | 0 <= j < |r| ensures r[j].id != id {
      WithoutIdMembers(s, id, r[j]);
    }
    forall j | 0 <= j < |s| && s[j].id != id ensures s[j] in r {
      WithoutIdMembers(s, id, s[j]);
    }
  }

  /** Deleting an id that no record has leaves the list unchanged. */
  lemma {:induction false} WithoutIdAbsent(s: seq<Task>, id: int)
    requires !HasId(s, id)
    ensures WithoutId(s, id) == s
  {
    if s != [] {
      assert !HasId(s[1..], id) by {
        forall j | 0 <= j < |s[1..]| ensures s[1..][j].id != id {
          assert s[1..][j] == s[j + 1];
        }
      }
      WithoutIdAbsent(s[1..], id);
      assert s == [s[0]] + s[1..];
    }
  }

  /** Deleting the same id twice gives the same list as deleting it once. */
  lemma WithoutIdIdempotent(s: seq<Task>, id: int)
    ensures WithoutId(WithoutId(s, id), id) == WithoutId(s, id)
  {
    WithoutIdRemovesAll(s, id);
    WithoutIdAbsent(WithoutId(s, id), id);
  }

  /** After a delete, an update of the same id finds nothing (the handler's 404). */
  lemma DeleteThenUpdateNotFound(s: seq<Task>, id: int)
    ensures FirstWithId(WithoutId(s, id), id) == None
  {
    WithoutIdRemovesAll(s, id);
  }

  // ---------------------------------------------------------- invariant

  /** Every operation keeps positive ids and non-empty descriptions. */
  lemma OperationsPreserveWellFormed(s: seq<Task>, task: Option<string>, id: int, completed: Option<bool>)
    requires WellFormed(s)
    ensures WellFormed(AfterAdd(s, task))
    ensures WellFormed(AfterUpdate(s, id, completed))
    ensures WellFormed(WithoutId(s, id))
  {
    AfterUpdateKeepsIdsAndText(s, id, completed);
    var r := WithoutId(s, id);
    forall j | 0 <= j < |r| ensures r[j].id >= 1 && r[j].task != "" {
      WithoutIdMembers(s, id, r[j]);
    }
  }
}
