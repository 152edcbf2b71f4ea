/** The in-memory repository test double: tasks kept in an insertion-ordered
    map from id to task, a switch that makes every read fail, and a slot
    holding the task list last published to observers. */
module FakeRepository {
  import opened Results
  import opened Tasks
  import opened LinkedHashMaps

  /** The repository's `LinkedHashMap<String, Task>`. */
  type TaskMap = seq<Entry<string, Task>>

  /** The message of the error every read returns while errors are switched on. */
  const TestException: string := "Test exception"
  /** The message of `getTask`'s error for an unknown id. */
  const CouldNotFindTask: string := "Could not find task"
  /** The message of `observeTask`'s error for an id missing from the list. */
  const NotFound: string := "Not found"

  /** Every task is stored under its own id. */
  predicate KeyedById(m: TaskMap) {
    forall i :: 0 <= i < |m| ==> m[i].key == m[i].value.id
  }

  /** What every operation of the repository keeps of its map. */
  predicate WellFormed(m: TaskMap) {
    DistinctKeys(m) && KeyedById(m)
  }

  /** `tasksServiceData[task.id] = task`, the write behind save, complete,
      activate and addTasks. */
  function Store(m: TaskMap, task: Task): (r: TaskMap)
    requires WellFormed(m)
    ensures WellFormed(r)
  {
    var r := Put(m, task.id, task);
    assert KeyedById(r) by {
      if HasKey(m, task.id) {
      } else {
        assert r == m + [Entry(task.id, task)];
      }
    }
    r
  }

  /** After an upsert the task's id maps to the task and every other id to
      what it did before. */
  lemma StoreGet(m: TaskMap, task: Task, id: string)
    requires WellFormed(m)
    ensures Get(Store(m, task), id) == if id == task.id then Some(task) else Get(m, id)
  {
    PutGet(m, task.id, task, id);
  }

  /** Every task of `tasks` stored in turn, first to last. */
  function StoreAll(m: TaskMap, tasks: seq<Task>): (r: TaskMap)
    requires WellFormed(m)
    ensures WellFormed(r)
    decreases |tasks|
  {
    if tasks == [] then m else StoreAll(Store(m, tasks[0]), tasks[1..])
  }

  /** Storing a batch leaves an id that no task of the batch carries as it was. */
  lemma {:induction false} StoreAllUntouched(m: TaskMap, tasks: seq<Task>, id: string)
    requires WellFormed(m)
    requires forall i :: 0 <= i < |tasks| ==> tasks[i].id != id
    ensures Get(StoreAll(m, tasks), id) == Get(m, id)
    decreases |tasks|
  {
    if tasks != [] {
      assert tasks[0].id != id;
      StoreGet(m, tasks[0], id);
      StoreAllUntouched(Store(m, tasks[0]), tasks[1..], id);
    }
  }

  /** After storing a batch, an id maps to the last task of the batch that
      carries it. */
  lemma {:induction false} StoreAllGet(m: TaskMap, tasks: seq<Task>, i: nat)
    requires WellFormed(m)
    requires i < |tasks|
    requires forall j :: i < j < |tasks| ==> tasks[j].id != tasks[i].id
    ensures Get(StoreAll(m, tasks), tasks[i].id) == Some(tasks[i])
    decreases |tasks|
  {
    var m' := Store(m, tasks[0]);
    var rest := tasks[1..];
    if i == 0 {
      forall j | 0 <= j < |rest| ensures rest[j].id != tasks[0].id {
        assert rest[j] == tasks[j + 1];
      }
      StoreAllUntouched(m', rest, tasks[0].id);
      StoreGet(m, tasks[0], tasks[0].id);
    } else {
      forall j | i - 1 < j < |rest| ensures rest[j].id != rest[i - 1].id {
        assert rest[j] == tasks[j + 1];
      }
      StoreAllGet(m', rest, i - 1);
    }
  }

  /** Removal keeps every task under its own id. */
  lemma RemoveWellFormed(m: TaskMap, id: string)
    requires WellFormed(m)
    ensures WellFormed(Remove(m, id))
  {
    RemoveKeepsDistinct(m, id);
    RemoveSubset(m, id);
    var r := Remove(m, id);
    forall i | 0 <= i < |r| ensures r[i].key == r[i].value.id {
      assert r[i] in m;
    }
  }

  /** Clearing completed tasks keeps every remaining task under its own id. */
  lemma ClearCompletedWellFormed(m: TaskMap)
    requires WellFormed(m)
    ensures WellFormed(FilterValues(m, IsActive))
  {
    var r := FilterValues(m, IsActive);
    FilterMembers(m, IsActive);
    FilterKeepsDistinct(m, IsActive);
    forall i | 0 <= i < |r| ensures r[i].key == r[i].value.id {
      assert r[i] in m;
    }
  }

  /** After clearing completed tasks, an id keeps its task exactly when the
      task is active. */
  lemma ClearCompletedGet(m: TaskMap, id: string)
    requires WellFormed(m)
    ensures Get(FilterValues(m, IsActive), id) ==
      if Get(m, id).Some? && IsActive(Get(m, id).value) then Get(m, id) else None
  {
    FilterGet(m, IsActive, id);
  }

  /** `firstOrNull { it.id == taskId }`. */
  function FirstWithId(tasks: seq<Task>, taskId: string): (r: Option<Task>)
    ensures r.None? <==> forall i :: 0 <= i < |tasks| ==> tasks[i].id != taskId
    ensures r.Some? ==> exists i :: (0 <= i < |tasks| && tasks[i] == r.value && r.value.id == taskId &&
      forall j :: 0 <= j < i ==> tasks[j].id != taskId)
  {
    if tasks == [] then None
    else if tasks[0].id == taskId then Some(tasks[0])
    else
      var r := FirstWithId(tasks[1..], taskId);
      assert r.Some? ==> exists i :: (1 <= i < |tasks| && tasks[i] == r.value && r.value.id == taskId &&
        forall j :: 0 <= j < i ==> tasks[j].id != taskId)
      by {
        if r.Some? {
          var i :| 0 <= i < |tasks[1..]| && tasks[1..][i] == r.value && r.value.id == taskId &&
            forall j :: 0 <= j < i ==> tasks[1..][j].id != taskId;
          assert tasks[i + 1] == r.value;
          forall j | 0 <= j < i + 1 ensures tasks[j].id != taskId {
            if j > 0 { assert tasks[j] == tasks[1..][j - 1]; }
          }
        }
      }
      r
  }

  /** The mapping `observeTask` puts over the published task list: Loading
      and Error pass through, a list yields its first task with the id or
      "Not found". */
  function TaskFromList(tasks: Result<seq<Task>>, taskId: string): (r: Result<Task>)
    ensures r.Loading? <==> tasks.Loading?
    ensures tasks.Error? ==> r == Error(tasks.exception)
    ensures tasks.Success? ==>
      (r.Success? <==> exists i :: 0 <= i < |tasks.data| && tasks.data[i].id == taskId)
    ensures tasks.Success? && !r.Success? ==> r == Error(NotFound)
    ensures r.Success? ==> r.data.id == taskId && r.data in tasks.data
    ensures tasks.Success? && r.Success? ==> FirstWithId(tasks.data, taskId) == Some(r.data)
  {
    match tasks
    case Loading => Loading
    case Error(e) => Error(e)
    case Success(list) =>
      match FirstWithId(list, taskId)
      case None => Error(NotFound)
      case Some(t) => Success(t)
  }

  /** The first task carrying the id is the one found. */
  lemma {:induction false} FirstWithIdAt(tasks: seq<Task>, taskId: string, i: nat)
    requires i < |tasks| && tasks[i].id == taskId
    requires forall j :: 0 <= j < i ==> tasks[j].id != taskId
    ensures FirstWithId(tasks, taskId) == Some(tasks[i])
  {
    if i > 0 {
      assert tasks[0].id != taskId;
      forall j | 0 <= j < i - 1 ensures tasks[1..][j].id != taskId {
        assert tasks[1..][j] == tasks[j + 1];
      }
      FirstWithIdAt(tasks[1..], taskId, i - 1);
    }
  }

  /** On a well-formed map, projecting the full list onto an id finds the
      same task as looking the id up, and fails exactly when it is absent. */
  lemma TaskFromListAgreesWithGet(m: TaskMap, taskId: string)
    requires WellFormed(m)
    ensures TaskFromList(Success(Values(m)), taskId) ==
      match Get(m, taskId)
      case Some(t) => Success(t)
      case None => Error(NotFound)
  {
    var vs := Values(m);
    if HasKey(m, taskId) {
      var i := IndexOf(m, taskId);
      GetAt(m, i);
      forall j | 0 <= j < i ensures vs[j].id != taskId {
        assert m[j].key != taskId;
      }
      FirstWithIdAt(vs, taskId, i);
    } else {
      forall i | 0 <= i < |vs| ensures vs[i].id != taskId {
        assert m[i].key != taskId;
      }
    }
  }

  /** Completing the same task twice leaves the store as completing it once;
      so does activating it twice. */
  lemma StoreIdempotent(m: TaskMap, task: Task)
    requires WellFormed(m)
    ensures Store(Store(m, task), task) == Store(m, task)
  {
    PutIdempotent(m, task.id, task);
  }

  class FakeTestRepository {
    var tasksServiceData: TaskMap
    /** The value of the observable task list; None until first published. */
    var observableTasks: Option<Result<seq<Task>>>
    var shouldReturnError: bool

    ghost predicate Valid()
      reads this
    {
      WellFormed(tasksServiceData)
    }

    constructor ()
      ensures Valid()
      ensures tasksServiceData == [] && observableTasks == None && !shouldReturnError
    {
      tasksServiceData := [];
      observableTasks := None;
      shouldReturnError := false;
    }

    method SetReturnError(value: bool)
      modifies this`shouldReturnError
      ensures shouldReturnError == value
    {
      shouldReturnError := value;
    }

    /** Every stored task, one per id, in insertion order; `forceUpdate` is ignored. */
    function GetTasks(forceUpdate: bool): (r: Result<seq<Task>>)
      reads this
      ensures shouldReturnError <==> r == Error(TestException)
      ensures !shouldReturnError ==> r.Success? && |r.data| == |tasksServiceData|
      ensures r.Success? ==> forall i :: 0 <= i < |r.data| ==> r.data[i] == tasksServiceData[i].value
    {
      if shouldReturnError then Error(TestException) else Success(Values(tasksServiceData))
    }

    /** The task stored under `taskId`; `forceUpdate` is ignored. */
    function GetTask(taskId: string, forceUpdate: bool): (r: Result<Task>)
      reads this
      ensures shouldReturnError ==> r == Error(TestException)
      ensures !shouldReturnError ==> (r.Success? <==> HasKey(tasksServiceData, taskId))
      ensures !shouldReturnError && !r.Success? ==> r == Error(CouldNotFindTask)
      ensures r.Success? ==> exists i :: 0 <= i < |tasksServiceData| && tasksServiceData[i] == Entry(taskId, r.data)
    {
      if shouldReturnError then Error(TestException)
      else
        match Get(tasksServiceData, taskId)
        case Some(t) => Success(t)
        case None => Error(CouldNotFindTask)
    }

    method RefreshTasks()
      modifies this`observableTasks
      ensures observableTasks == Some(GetTasks(false))
    {
      observableTasks := Some(GetTasks(false));
    }

    method RefreshTask(taskId: string)
      modifies this`observableTasks
      ensures observableTasks == Some(GetTasks(false))
    {
      RefreshTasks();
    }

    /** Publishes the current task list and returns the published value. */
    method ObserveTasks() returns (published: Result<seq<Task>>)
      modifies this`observableTasks
      ensures observableTasks == Some(published) && published == GetTasks(false)
    {
      RefreshTasks();
      published := observableTasks.value;
    }

    /** Publishes the current task list and returns its projection onto `taskId`. */
    method ObserveTask(taskId: string) returns (published: Result<Task>)
      modifies this`observableTasks
      ensures observableTasks == Some(GetTasks(false))
      ensures published == TaskFromList(GetTasks(false), taskId)
    {
      RefreshTasks();
      published := TaskFromList(observableTasks.value, taskId);
    }

    /** Upsert; the published list is left as it was. */
    method SaveTask(task: Task)
      requires Valid()
      modifies this`tasksServiceData
      ensures Valid()
      ensures tasksServiceData == Store(old(tasksServiceData), task)
    {
      tasksServiceData := Store(tasksServiceData, task);
    }

    method CompleteTask(task: Task)
      requires Valid()
      modifies this`tasksServiceData, this`observableTasks
      ensures Valid()
      ensures tasksServiceData == Store(old(tasksServiceData), task.WithCompleted(true))
      ensures observableTasks == Some(GetTasks(false))
    {
      var completedTask := task.WithCompleted(true);
      tasksServiceData := Store(tasksServiceData, completedTask);
      RefreshTasks();
    }

    /** The by-id overload is not implemented: it throws and changes nothing. */
    method CompleteTaskById(taskId: string) returns (r: Outcome<()>)
      ensures r == Threw(NotImplemented)
    {
      r := Threw(NotImplemented);
    }

    method ActivateTask(task: Task)
      requires Valid()
      modifies this`tasksServiceData, this`observableTasks
      ensures Valid()
      ensures tasksServiceData == Store(old(tasksServiceData), task.WithCompleted(false))
      ensures observableTasks == Some(GetTasks(false))
    {
      var activeTask := task.WithCompleted(false);
      tasksServiceData := Store(tasksServiceData, activeTask);
      RefreshTasks();
    }

    /** The by-id overload is not implemented: it throws and changes nothing. */
    method ActivateTaskById(taskId: string) returns (r: Outcome<()>)
      ensures r == Threw(NotImplemented)
    {
      r := Threw(NotImplemented);
    }

    /** Keeps the active tasks in order; the published list is left as it was. */
    method ClearCompletedTasks()
      requires Valid()
      modifies this`tasksServiceData
      ensures Valid()
      ensures tasksServiceData == FilterValues(old(tasksServiceData), IsActive)
    {
      ClearCompletedWellFormed(tasksServiceData);
      tasksServiceData := FilterValues(tasksServiceData, IsActive);
    }

    method DeleteTask(taskId: string)
      requires Valid()
      modifies this`tasksServiceData, this`observableTasks
      ensures Valid()
      ensures tasksServiceData == Remove(old(tasksServiceData), taskId)
      ensures observableTasks == Some(GetTasks(false))
    {
      RemoveWellFormed(tasksServiceData, taskId);
      tasksServiceData := Remove(tasksServiceData, taskId);
      RefreshTasks();
    }

    method DeleteAllTasks()
      requires Valid()
      modifies this`tasksServiceData, this`observableTasks
      ensures Valid()
      ensures tasksServiceData == []
      ensures observableTasks == Some(if shouldReturnError then Error(TestException) else Success([]))
    {
      tasksServiceData := [];
      RefreshTasks();
    }

    /** Stores each task in turn, then publishes the list. */
    method AddTasks(tasks: seq<Task>)
      requires Valid()
      modifies this`tasksServiceData, this`observableTasks
      ensures Valid()
      ensures tasksServiceData == StoreAll(old(tasksServiceData), tasks)
      ensures observableTasks == Some(GetTasks(false))
    {
      for i := 0 to |tasks|
        invariant Valid()
        invariant StoreAll(tasksServiceData, tasks[i..]) == StoreAll(old(tasksServiceData), tasks)
      {
        assert tasks[i..][1..] == tasks[i + 1..];
        tasksServiceData := Store(tasksServiceData, tasks[i]);
      }
      RefreshTasks();
    }
  }

  /** Storing a task whose id is new appends it. */
  lemma StoreFresh(m: TaskMap, task: Task)
    requires WellFormed(m)
    requires forall i :: 0 <= i < |m| ==> m[i].key != task.id
    ensures Store(m, task) == m + [Entry(task.id, task)]
  {
  }

  /** Each task under its own id, in the given order. */
  function ById(tasks: seq<Task>): (r: TaskMap)
  {
    seq(|tasks|, i requires 0 <= i < |tasks| => Entry(tasks[i].id, tasks[i]))
  }

  /** Adding tasks whose ids are new and pairwise distinct appends them, in
      the order given, after the entries already stored. */
  lemma {:induction false} StoreAllFresh(m: TaskMap, tasks: seq<Task>)
    requires WellFormed(m)
    requires forall i, j :: 0 <= i < j < |tasks| ==> tasks[i].id != tasks[j].id
    requires forall i, j :: 0 <= i < |m| && 0 <= j < |tasks| ==> m[i].key != tasks[j].id
    ensures StoreAll(m, tasks) == m + ById(tasks)
    decreases |tasks|
  {
    if tasks != [] {
      StoreFresh(m, tasks[0]);
      var m' := m + [Entry(tasks[0].id, tasks[0])];
      var rest := tasks[1..];
      forall i, j | 0 <= i < |m'| && 0 <= j < |rest| ensures m'[i].key != rest[j].id {
        assert rest[j] == tasks[j + 1];
      }
      forall i, j | 0 <= i < j < |rest| ensures rest[i].id != rest[j].id {
        assert rest[i] == tasks[i + 1] && rest[j] == tasks[j + 1];
      }
      StoreAllFresh(m', rest);
      assert StoreAll(m, tasks) == StoreAll(m', rest);
      var left, right := m' + ById(rest), m + ById(tasks);
      forall i | 0 <= i < |right| ensures left[i] == right[i] {
        if i > |m| { assert rest[i - |m| - 1] == tasks[i - |m|]; }
      }
      assert left == right;
    }
  }

  /** Adding three tasks with distinct ids to an empty store lists them in order. */
  lemma ThreeStored(task1: Task, task2: Task, task3: Task)
    requires task1.id != task2.id && task1.id != task3.id && task2.id != task3.id
    ensures StoreAll([], [task1, task2, task3]) ==
      [Entry(task1.id, task1), Entry(task2.id, task2), Entry(task3.id, task3)]
  {
    var tasks := [task1, task2, task3];
    StoreAllFresh([], tasks);
    var b := ById(tasks);
    assert b[0] == Entry(task1.id, task1) && b[1] == Entry(task2.id, task2) && b[2] == Entry(task3.id, task3);
    assert [] + b == b == [b[0], b[1], b[2]];
  }

  /** The three-task setup of the view-model tests: one active task and two
      completed ones; clearing the completed tasks leaves the active one. */
  lemma ThreeStoredThenCleared(task1: Task, task2: Task, task3: Task)
    requires task1.id != task2.id && task1.id != task3.id && task2.id != task3.id
    requires !task1.isCompleted && task2.isCompleted && task3.isCompleted
    ensures Values(FilterValues(StoreAll([], [task1, task2, task3]), IsActive)) == [task1]
  {
    var e1, e2, e3 := Entry(task1.id, task1), Entry(task2.id, task2), Entry(task3.id, task3);
    ThreeStored(task1, task2, task3);
    assert FilterValues([e3], IsActive) == [] by {
      assert [e3][1..] == [];
    }
    assert FilterValues([e2, e3], IsActive) == [] by {
      assert [e2, e3][1..] == [e3];
    }
    assert FilterValues([e1, e2, e3], IsActive) == [e1] by {
      assert [e1, e2, e3][1..] == [e2, e3];
    }
  }

  /** Three tasks added to a fresh repository, one active and two completed,
      with distinct ids: clearing the completed ones leaves the active one. */
  method AddThreeThenClearCompleted(task1: Task, task2: Task, task3: Task) returns (r: Result<seq<Task>>)
    requires task1.id != task2.id && task1.id != task3.id && task2.id != task3.id
    requires !task1.isCompleted && task2.isCompleted && task3.isCompleted
    ensures r == Success([task1])
  {
    ThreeStoredThenCleared(task1, task2, task3);
    var repository := new FakeTestRepository();
    repository.AddTasks([task1, task2, task3]);
    repository.ClearCompletedTasks();
    r := repository.GetTasks(false);
  }
}
