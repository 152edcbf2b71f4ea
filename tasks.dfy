/** The task record the stores hold. */
module Tasks {

  /** A to-do item; `id` is the key it is stored under. */
  datatype Task = Task(id: string, title: string, description: string, isCompleted: bool) {

    /** Kotlin's `copy(isCompleted = completed)`: the same task with only the
        completion flag replaced. */
    function WithCompleted(completed: bool): (t: Task)
      ensures t.isCompleted == completed
      ensures t.id == id && t.title == title && t.description == description
      ensures isCompleted == completed ==> t == this
    {
      this.(isCompleted := completed)
    }
  }

  /** The filter `clearCompletedTasks` keeps: tasks not yet completed. */
  predicate IsActive(t: Task) {
    !t.isCompleted
  }
}
