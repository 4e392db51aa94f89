/** Values that the scheduler stores and passes along without looking inside them. */
module Common {

  datatype Option<+T> = None | Some(value: T)

  /** A `System.Object` produced by user code; `Null` is the C# null reference. */
  datatype Value = Null | Boxed(handle: int)

  /** A `System.Exception`, known only by its identity. */
  datatype Error = Error(code: int)

  /** What running a user body did: returned a value (ignored for an `Action` body) or threw. */
  datatype Outcome = Ok(value: Value) | Err(error: Error)

  /** Which delegate a task record carries: `TaskWithResult` (a `Func<object>`) or `Task` (an `Action`). */
  datatype Body = ResultBody | ActionBody

  /** The thread on which a callback or a body runs. */
  datatype Thread = MainThread | WorkerThread

  /** An exception the scheduler raises to the caller of one of its public operations. */
  datatype Raised =
    | NoGroupNamed(groupName: string)   // the group enqueue overloads, for an undeclared group
    | DuplicateKey(groupName: string)   // `Dictionary.Add` in `CreateGroup`, for a live name

  datatype Result<+T> = Success(value: T) | Failure(error: Raised)
}
