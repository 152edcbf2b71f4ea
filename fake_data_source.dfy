/** The list-backed data source test double. Its list may be null; only
    reading all tasks, saving and deleting all are implemented, every other
    operation throws. */
module FakeSource {
  import opened Results
  import opened Tasks

  /** The message of the error `getTasks` returns when the list is null. */
  const TasksNotFound: string := "Tasks not found"

  class FakeDataSource {
    /** The backing list; None stands for null. */
    var tasks: Option<seq<Task>>

    /** The list defaults to an empty one; callers may pass their own or null. */
    constructor (tasks: Option<seq<Task>> := Some([]))
      ensures this.tasks == tasks
    {
      this.tasks := tasks;
    }

    /** A snapshot of the list, or an error when the list is null. */
    function GetTasks(): (r: Result<seq<Task>>)
      reads this
      ensures r.Success? <==> tasks.Some?
      ensures r.Success? ==> r.data == tasks.value
      ensures !r.Success? ==> r == Error(TasksNotFound)
    {
      match tasks
      case Some(list) => Success(list)
      case None => Error(TasksNotFound)
    }

    /** Empties a non-null list; a null list stays null. */
    method DeleteAllTasks()
      modifies this`tasks
      ensures tasks == if old(tasks).Some? then Some([]) else None
    {
      if tasks.Some? {
        tasks := Some([]);
      }
    }

    /** Appends to a non-null list without looking at ids; a null list stays null. */
    method SaveTask(task: Task)
      modifies this`tasks
      ensures tasks == if old(tasks).Some? then Some(old(tasks).value + [task]) else None
    {
      if tasks.Some? {
        tasks := Some(tasks.value + [task]);
      }
    }

    method ObserveTasks() returns (r: Outcome<Result<seq<Task>>>)
      ensures r == Threw(NotYetImplemented)
    {
      r := Threw(NotYetImplemented);
    }

    method RefreshTasks() returns (r: Outcome<()>)
      ensures r == Threw(NotYetImplemented)
    {
      r := Threw(NotYetImplemented);
    }

    method ObserveTask(taskId: string) returns (r: Outcome<Result<Task>>)
      ensures r == Threw(NotYetImplemented)
    {
      r := Threw(NotYetImplemented);
    }

    method GetTask(taskId: string) returns (r: Outcome<Result<Task>>)
      ensures r == Threw(NotYetImplemented)
    {
      r := Threw(NotYetImplemented);
    }

    method RefreshTask(taskId: string) returns (r: Outcome<()>)
      ensures r == Threw(NotYetImplemented)
    {
      r := Threw(NotYetImplemented);
    }

    method CompleteTask(task: Task) returns (r: Outcome<()>)
      ensures r == Threw(NotYetImplemented)
    {
      r := Threw(NotYetImplemented);
    }

    method CompleteTaskById(taskId: string) returns (r: Outcome<()>)
      ensures r == Threw(NotYetImplemented)
    {
      r := Threw(NotYetImplemented);
    }

    method ActivateTask(task: Task) returns (r: Outcome<()>)
      ensures r == Threw(NotYetImplemented)
    {
      r := Threw(NotYetImplemented);
    }

    method ActivateTaskById(taskId: string) returns (r: Outcome<()>)
      ensures r == Threw(NotYetImplemented)
    {
      r := Threw(NotYetImplemented);
    }

    method ClearCompletedTasks() returns (r: Outcome<()>)
      ensures r == Threw(NotYetImplemented)
    {
      r := Threw(NotYetImplemented);
    }

    method DeleteTask(taskId: string) returns (r: Outcome<()>)
      ensures r == Threw(NotYetImplemented)
    {
      r := Threw(NotYetImplemented);
    }
  }

  /** Each save adds one entry at the end even when the id repeats, and the
      entries already there stay. That the earlier snapshot is unchanged
      follows from value semantics alone; the aliasing the copy in
      `getTasks` guards against is not modelled. */
  method SnapshotThenSaveTwice(initial: seq<Task>, task: Task)
    returns (before: Result<seq<Task>>, after: Result<seq<Task>>)
    ensures before == Success(initial)
    ensures after.Success? && |after.data| == |initial| + 2
    ensures after.data[|initial|] == after.data[|initial| + 1] == task
    ensures after.data[..|initial|] == initial
  {
    var source := new FakeDataSource(Some(initial));
    before := source.GetTasks();
    source.SaveTask(task);
    source.SaveTask(task);
    after := source.GetTasks();
  }

  /** Deleting all from a non-null list makes the next read an empty success;
      on a null list both calls leave it null and the read fails. */
  method DeleteAllThenGet(initial: Option<seq<Task>>, task: Task) returns (r: Result<seq<Task>>)
    ensures initial.Some? ==> r == Success([])
    ensures initial.None? ==> r == Error(TasksNotFound)
  {
    var source := new FakeDataSource(initial);
    source.SaveTask(task);
    source.DeleteAllTasks();
    r := source.GetTasks();
  }
}
