/** The scheduler's two record types (`UniThread.TaskRunner` and `UniThread.TaskGroup`), the jobs
    it hands to the thread pool, and the events through which the model observes user code being
    run: bodies, callbacks, and the errors the scheduler logs. */
module Records {
  import opened Common

  /** The fields of a task record that the worker or the drain write after enqueueing. */
  datatype TaskState = TaskState(isComplete: bool, result: Value, exception: Option<Error>)

  /** One unit of work, its callbacks and its outcome. The properties that the enqueue overloads
      set once, in their object initialisers, are constants here; a callback is modelled by whether
      it is non-null, and a null `Name` is `None`. */
  class TaskRunner {
    const name: Option<string>
    const groupName: Option<string>
    const body: Body
    const isThreaded: bool
    const hasOnComplete: bool
    const hasOnError: bool
    var positionInGroup: int
    var isComplete: bool
    var result: Value
    var exception: Option<Error>

    constructor (name: Option<string>, groupName: Option<string>, body: Body, isThreaded: bool,
                 hasOnComplete: bool, hasOnError: bool)
      ensures this.name == name && this.groupName == groupName && this.body == body
      ensures this.isThreaded == isThreaded
      ensures this.hasOnComplete == hasOnComplete && this.hasOnError == hasOnError
      ensures positionInGroup == 0 && State() == TaskState(false, Null, None)
    {
      this.name := name;
      this.groupName := groupName;
      this.body := body;
      this.isThreaded := isThreaded;
      this.hasOnComplete := hasOnComplete;
      this.hasOnError := hasOnError;
      positionInGroup := 0;
      isComplete := false;
      result := Null;
      exception := None;
    }

    /** `ReturnsResult`: every overload that takes a `Func<object>` sets it, no other does. */
    predicate ReturnsResult() {
      body == ResultBody
    }

    function State(): TaskState
      reads this
    {
      TaskState(isComplete, result, exception)
    }
  }

  /** A record after its body ran: a `Func<object>` body's value goes to `Result`, a thrown
      exception to `Exception`; `IsComplete` is set separately by the caller. */
  function AfterBody(body: Body, s: TaskState, outcome: Outcome): TaskState {
    match outcome
    case Ok(v) => if body == ResultBody then s.(result := v) else s
    case Err(e) => s.(exception := Some(e))
  }

  /** A named barrier over `TotalThreads` task completions, with one callback. */
  class TaskGroup {
    const name: string
    const totalThreads: int
    const isAsync: bool
    const hasOnComplete: bool
    var numberOfThreadsComplete: int
    var results: map<string, Value>
    var taskRunners: seq<TaskRunner>
    var hasFiredExecutor: bool

    constructor (name: string, totalThreads: int, isAsync: bool, hasOnComplete: bool)
      ensures this.name == name && this.totalThreads == totalThreads
      ensures this.isAsync == isAsync && this.hasOnComplete == hasOnComplete
      ensures numberOfThreadsComplete == 0 && results == map[] && taskRunners == []
      ensures !hasFiredExecutor
    {
      this.name := name;
      this.totalThreads := totalThreads;
      this.isAsync := isAsync;
      this.hasOnComplete := hasOnComplete;
      numberOfThreadsComplete := 0;
      results := map[];
      taskRunners := [];
      hasFiredExecutor := false;
    }

    /** The barrier: exactly `TotalThreads` completions have been counted. */
    predicate AllThreadsComplete()
      reads this
    {
      numberOfThreadsComplete == totalThreads
    }

    /** Counts one completion; the record passed in is not otherwise used. */
    method Complete(taskRunner: TaskRunner)
      modifies this`numberOfThreadsComplete
      ensures numberOfThreadsComplete == old(numberOfThreadsComplete) + 1
    {
      numberOfThreadsComplete := numberOfThreadsComplete + 1;
    }
  }

  /** A work item submitted to the thread pool (`ThreadPool.QueueUserWorkItem`). */
  datatype Job = RunTask(task: TaskRunner) | RunGroup(group: TaskGroup)

  /** A user callback invocation, with the argument it receives. */
  datatype Callback =
    | OnComplete(task: TaskRunner, value: Value)
    | OnError(task: TaskRunner, error: Error)
    | GroupOnComplete(group: TaskGroup, results: map<string, Value>)

  datatype Event =
    | BodyRan(task: TaskRunner, thread: Thread)      // a task body was run
    | Invoked(callback: Callback, thread: Thread)    // a non-null callback was invoked
    | CallbackFailed(callback: Callback)             // it threw (or was null); caught and logged
    | GroupNotFound(groupName: string)               // a worker's group lookup missed; logged
    | UpdateFailed(callback: Callback)               // handling its throw threw out of the drain, ending the frame

  /** The callbacks a list of events invokes, in order. */
  function Calls(events: seq<Event>): (r: seq<Callback>)
    ensures |r| <= |events|
  {
    if events == [] then []
    else (if events[0].Invoked? then [events[0].callback] else []) + Calls(events[1..])
  }

  lemma {:induction false} CallsAppend(a: seq<Event>, b: seq<Event>)
    ensures Calls(a + b) == Calls(a) + Calls(b)
    decreases |a|
  {
    if a != [] {
      CallsAppend(a[1..], b);
      assert (a + b)[1..] == a[1..] + b;
    } else {
      assert a + b == b;
    }
  }
}
