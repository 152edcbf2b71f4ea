/** The outcome types shared by the task stores.
    `Result` is the three-way union every data operation returns or publishes;
    an exception is carried as its message. `Option` stands for a nullable
    reference, and `Outcome` for a call that either returns or throws. */
module Results {

  datatype Option<+T> = None | Some(value: T)

  /** Success carries the data, Error the message of the exception it wraps,
      Loading marks a fetch still in flight. */
  datatype Result<+T> = Success(data: T) | Error(exception: string) | Loading

  /** A call that either returns a value or throws an exception with a message. */
  datatype Outcome<+T> = Returned(value: T) | Threw(exception: string)

  /** The message of a Kotlin `NotImplementedError()` thrown without a reason. */
  const NotImplemented: string := "An operation is not implemented."

  /** The message of the error Kotlin's `TODO("Not yet implemented")` throws. */
  const NotYetImplemented: string := "An operation is not implemented: Not yet implemented"
}
