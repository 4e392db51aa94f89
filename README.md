# UniThread scheduler core in Dafny

`UniThread` runs work on the .NET thread pool for Unity. It delivers the results on Unity's main
thread, in a drain executed once per frame. This project models the scheduler's bookkeeping:
- a list of task records (`taskRunners`);
- a dictionary of group records (`groups`), each a counting barrier over its member tasks;
- the operations that change them: the enqueue overloads, `Add`, `AddToGroup`, `CreateGroup`, the
  worker steps `RunTaskThread` and `RunGroupThread`, and the drain `Update`.

Each operation is one atomic step of a sequential state machine. The source's static fields are
the fields of one `UniThread` object here. Other parts of the model:
- The thread pool is the multiset `pending` of queued jobs. Any queued job may be run next; the
  caller of a worker step picks it.
- User bodies and callbacks are opaque. What a body does (`Ok(value)` or `Err(error)`) and
  whether a callback throws are parameters.
- Everything user code is asked to do is appended to `log` as an `Event`, in order, tagged with
  the thread it runs on. So is every error the scheduler catches and logs.

Files and modules:
- `common.dfy` (`Common`): the values the scheduler passes along.
- `records.dfy` (`Records`): the `TaskRunner` and `TaskGroup` classes, jobs, callbacks and events.
- `results.dfy` (`GroupResults`): how a group's `Results` dictionary is filled at the barrier.
- `removal.dfy` (`Removal`): the mark-then-remove pattern of the drain, on values.
- `drain.dfy` (`Drain`): what the drain decides for each record and each group, as functions.
- `scheduler.dfy` (`Scheduler`): the `UniThread` class and its invariant `Valid()`. Every public
  operation keeps `Valid()`. The loop and phase helpers of `Update` work on a partly updated
  registry and do not all state it.

`Valid()` holds the following facts:
- The registered records are distinct, and none belongs to a group.
- Every group is registered under its own name.
- A group's members are threaded result tasks that carry the group's name and their positions
  0, 1, … in list order.
- A group's counter equals the number of distinct completed records credited to it. Only an
  async group ever fires its executor.
- A group's `Results` stay empty until its counter reaches `TotalThreads`.
- Every queued job is queued once. It is either a threaded record that has not completed, or an
  async group whose executor has fired. So an async group's callback is queued at most once.

The drain is proved in three layers:
1. `Drain.ScanTasks` and `Drain.ScanGroups` are reference definitions of the two scans, record by
   record.
2. `Removal.Kept` is the reference definition of the reverse `RemoveAt` loop.
3. `Scheduler.UniThread.Update` is tied to those definitions, and lemmas about them state what
   the source promises.

Declaring a live group name again does not replace the old group. `CreateGroup` calls
`Dictionary.Add` (UniThread.cs:245), which throws on a live key. `CreateGroup` therefore returns
`Failure(DuplicateKey(name))` and leaves the registry unchanged.

A task record's `Name` may be null, which is `None` here. In the model it matters in one place: the message
the drain logs when a callback of a threaded record throws (UniThread.cs:421-446). For a record
without a name this message cannot be formatted, so the `catch` block itself throws and the drain
ends there (see "## Findings"). A format string is modelled by the argument indices of its
format items.

## Model

| member | source | states |
|---|---|---|
| Records.TaskRunner.constructor | UniThread.cs:43-57 | A new record: the properties set by the object initialiser, not complete, null `Result`, no `Exception`, position 0 |
| Records.TaskGroup.constructor | UniThread.cs:233-240 | A new group: zero completions, no members, empty `Results`, executor not fired |
| Records.AfterBody | UniThread.cs:290-295 | Reference definition of a body run, on the worker (290-295) and in the drain (397-401): a `Func<object>` body's value goes to `Result`, an `Action` body's is dropped, and a thrown exception goes to `Exception` |
| Records.TaskGroup.AllThreadsComplete | UniThread.cs:71-71 | The barrier: the counter equals `TotalThreads` |
| Records.TaskGroup.Complete | UniThread.cs:80-82 | Adds exactly one to the group's completion counter |
| GroupResults.Entries | UniThread.cs:307-309 | One `(Name, Result)` pair per member, in list order |
| GroupResults.Assemble | UniThread.cs:307-309 | Reference definition of the indexer assignments `Results[name] = result`, one after the other, into a dictionary |
| GroupResults.AssembleKeys | UniThread.cs:307-309 | The indexer assignments leave the old keys plus every member's name |
| GroupResults.AssembleLastWins | UniThread.cs:308-308 | When no later member shares a member's name, that member's result is stored under it |
| GroupResults.AssembleKeepsOthers | UniThread.cs:308-308 | A key that no member's name matches keeps its old value |
| GroupResults.AssembleDistinct | UniThread.cs:307-309 | With distinct member names, the dictionary holds exactly one entry per member, holding that member's result |
| Removal.Kept | UniThread.cs:459-463 | Reference definition of the records the reverse `RemoveAt` loop leaves: the unmarked ones, in order |
| Removal.SurvivorsAreUnmarked | UniThread.cs:459-463 | Every index left by the removal loop is unmarked |
| Removal.SurvivorsIncrease | UniThread.cs:459-463 | The indices left keep their relative order |
| Removal.SurvivorsComplete | UniThread.cs:459-463 | Every unmarked index is left |
| Removal.KeptSelectsSurvivors | UniThread.cs:456-463 | The k-th record left is the record at the k-th unmarked index, so exactly the marked records go |
| Removal.KeptKeepsAppended | UniThread.cs:388-463 | Records past the length of the marks array, i.e. appended after it was sized, all stay, behind the survivors |
| Removal.KeptSubsequence | UniThread.cs:456-463 | The records left were in the list, and a list without repeats stays without |
| Removal.RemoveStep | UniThread.cs:459-462 | One iteration of the reverse loop extends the filtered suffix by one index |
| Drain.CallbackFailureReport | UniThread.cs:430-446 | The failure message of a named record formats, and that of an unnamed record does not: its item `{2}` has only two arguments |
| Drain.IntendedCallbackFailureReport | UniThread.cs:440-444 | With the unnamed message's second item as `{1}`, every failure message formats |
| Drain.DrainTask | UniThread.cs:392-449 | Reference definition of one iteration of the task scan: the record's fields afterwards, the events, the mark and whether an exception escaped the drain |
| Drain.DrainTaskDecides | UniThread.cs:392-449 | A running threaded record is skipped and kept. Every other record is marked unless the drain aborts. The drain aborts exactly when a non-threaded record's `OnError` throws, or when a callback of an unnamed complete threaded result record throws and its failure message cannot be formatted. The drain never writes a threaded record. A non-threaded record's body result is stored, and the record becomes complete unless the drain aborted |
| Drain.DrainTaskEvents | UniThread.cs:395-449 | A non-threaded record's body runs on the main thread, and its only callback is `OnError` on an exception. A complete threaded result record gets `OnComplete(Result)` with no `Exception` and `OnError(Exception)` otherwise, each only when non-null. A complete fire-and-forget record invokes nothing. Every callback runs on the main thread |
| Drain.UnthreadedNeverCompletes | UniThread.cs:395-406 | The drain never calls `OnComplete` for a non-threaded record |
| Drain.ThreadedCompletes | UniThread.cs:413-416 | A completed threaded result record with no `Exception` gets `OnComplete(Result)` and no other callback |
| Drain.UnnamedFailureEscapes | UniThread.cs:413-449 | A throwing callback of an unnamed complete threaded result record aborts the drain. The record is left unmarked and unchanged, so the next drain aborts on it again |
| Drain.ScanTasks | UniThread.cs:390-450 | Reference definition of the task scan over the first n records: each record in turn, stopping after the first one that aborts |
| Drain.ScanTasksUntouched | UniThread.cs:390-392 | Records the scan has not reached are unchanged and unmarked |
| Drain.ScanTasksAt | UniThread.cs:390-450 | Without an abort, each record the scan reached is handled on its own by the per-record decision |
| Drain.ScanTasksMarksAllButRunning | UniThread.cs:390-450 | A full scan that nothing escaped marks exactly the records that are not threaded and still running |
| Drain.ScanTasksReaches | UniThread.cs:390-450 | Without an abort before record k, the events of the first k records followed by record k's own events are a prefix of the whole scan's events |
| Drain.ScanTasksInvokesComplete | UniThread.cs:413-416 | A scan that reaches a completed threaded result record with no `Exception` and a non-null `OnComplete` calls `OnComplete(Result)` for it |
| Drain.ScanTasksInvokesError | UniThread.cs:417-419 | A scan that reaches a completed threaded result record with an `Exception` and a non-null `OnError` calls `OnError(Exception)` for it. A fire-and-forget record is removed at UniThread.cs:408-411 without any callback |
| Drain.ScanTasksInvokesOnlyReached | UniThread.cs:390-450 | Every callback of the scan is one that `DrainTask` issues for a record the scan reached |
| Drain.ScanTasksEscapesAt | UniThread.cs:387-454 | A reached record that aborts ends the scan there, and the records after it are not visited |
| Drain.ScanTasksAborts | UniThread.cs:390-450 | The scan aborts only when a record it reached aborts |
| Drain.ScanTasksMonotone | UniThread.cs:390-450 | Even an aborted scan leaves threaded records alone and never clears `IsComplete` |
| Drain.ScanTasksKeepsCompletion | UniThread.cs:390-450 | The same, for every record of a full scan |
| Drain.ScanTasksStaysAborted | UniThread.cs:387-454 | After an abort the remaining records are not visited |
| Drain.InvokeGroupCallback | UniThread.cs:269-275 | Reference definition of one group callback invocation, on a worker (269-275) or in the drain (479-490): invoked with `Results` when non-null, and a null or throwing callback logged |
| Drain.InvokeGroupCallbackCalls | UniThread.cs:268-275 | The group `OnComplete` is called with `Results` when non-null. A null or throwing callback is caught and logged, never propagated |
| Drain.DrainGroup | UniThread.cs:476-491 | A group is marked exactly when it is at its barrier. An async or unfinished group invokes nothing |
| Drain.DrainGroupCalls | UniThread.cs:477-480 | The drain calls a group's `OnComplete(Results)` only for a non-async group at its barrier |
| Drain.DrainGroupOnMainThread | UniThread.cs:479-480 | The drain invokes group callbacks on the main thread |
| Drain.ScanGroups | UniThread.cs:472-492 | Exactly the groups at their barrier are marked, async or not |
| Drain.ScanGroupsInvokesDue | UniThread.cs:475-492 | Every non-async group at its barrier gets its callback with its `Results` |
| Drain.ScanGroupsInvokesOnlyDue | UniThread.cs:475-492 | Every callback of the group scan belongs to such a group |
| Drain.ScanGroupsOnMainThread | UniThread.cs:475-492 | The group scan invokes callbacks on the main thread only |
| Scheduler.Snapshot | UniThread.cs:471-471 | Reference definition of `groups.Values.ToArray()`: the group under each key, in enumeration order |
| Scheduler.SnapshotHoldsAll | UniThread.cs:471-471 | `groups.Values.ToArray()` holds every registered group, with as many entries as there are keys |
| Scheduler.Unfinished | UniThread.cs:498-505 | The registry without the groups at their barrier: a name stays exactly when its group has not reached `TotalThreads`, with the same group |
| Scheduler.RemovingCompleteLeavesUnfinished | UniThread.cs:498-505 | Removing every marked snapshot group by name leaves exactly the groups not at their barrier |
| Scheduler.UniThread.constructor | UniThread.cs:35-36 | The registry starts empty, with nothing queued or logged |
| Scheduler.UniThread.Add | UniThread.cs:345-354 | Appends the record to `taskRunners`, and queues it exactly when it is threaded |
| Scheduler.UniThread.AddToGroup | UniThread.cs:356-379 | A named record gets position = previous member count and is appended to the group's members and queued. `taskRunners`, the counter and `Results` are unchanged |
| Scheduler.UniThread.CreateGroup | UniThread.cs:225-250 | A fresh group with zero completions, no members and empty `Results` is registered under its name. A live name fails with `DuplicateKey`, and nothing changes |
| Scheduler.UniThread.EnqueueAsyncUnityTask | UniThread.cs:113-130 | As written: a non-threaded result record is appended and not queued |
| Scheduler.UniThread.EnqueueThreadedUnityTask | UniThread.cs:113-130 | As documented: the same record, threaded and queued |
| Scheduler.UniThread.EnqueueAsyncUnityGroupTask | UniThread.cs:135-191 | An undeclared group fails with `NoGroupNamed` before anything is registered. Otherwise a threaded result record joins the group at the next position, is queued, and is not added to `taskRunners` |
| Scheduler.UniThread.EnqueueAsyncTask | UniThread.cs:195-210 | A threaded fire-and-forget record without `OnComplete` is appended and queued |
| Scheduler.UniThread.EnqueueSyncedUnityTask | UniThread.cs:213-222 | A non-threaded `Action` record is appended and not queued |
| Scheduler.UniThread.GroupOf | UniThread.cs:299-302 | The group a worker finds for a record: exactly the group registered under its `GroupName`, as `groups[taskRunner.GroupName]` returns it, and none when it has no group name or the name is not registered |
| Scheduler.UniThread.RunTaskThread | UniThread.cs:288-327 | The body's value or exception is stored, and `IsComplete` is set whatever happened. A group member adds exactly one completion. At the barrier, with the executor not fired, `Results` is exactly the assembly of `Results[name] = Result` over the members into the still empty dictionary, and an async group is queued once with `HasFiredExecutor` set. A missing group is logged. The record's position is unchanged |
| Scheduler.UniThread.FinishTask | UniThread.cs:289-298 | The worker's body run: result or exception stored, record complete, job consumed, position unchanged |
| Scheduler.UniThread.CompleteInGroup | UniThread.cs:302-318 | The group side of a completion: counter +1. Only at the barrier, and at most once, `Results` becomes the assembly of the members into an empty dictionary and the async executor is queued |
| Scheduler.UniThread.CountCompletion | UniThread.cs:303-303 | The counter grows by one and the record is credited to the group |
| Scheduler.UniThread.CopyResults | UniThread.cs:307-309 | At the barrier, the for-loop leaves exactly the assembled dictionary of the members |
| Scheduler.UniThread.FireExecutor | UniThread.cs:310-313 | The async group is queued and marked as fired |
| Scheduler.UniThread.RunGroupThread | UniThread.cs:268-286 | The group callback is invoked with `Results` on a worker, throws are caught, and the group is deregistered by name |
| Scheduler.UniThread.Update | UniThread.cs:385-510 | The task scan follows `ScanTasks`. An abort leaves `taskRunners` and `groups` unchanged. Otherwise exactly the marked records are removed, in order, then each non-async group at its barrier has its callback invoked, and exactly the unfinished groups remain. No record's position changes |
| Scheduler.UniThread.Sweep | UniThread.cs:456-509 | After a scan nothing escaped: the marked records are removed, then the groups are scanned and the finished ones removed |
| Scheduler.UniThread.DrainTaskRunners | UniThread.cs:387-454 | The task scan, leaving every record's fields as `ScanTasks` computes them |
| Scheduler.UniThread.ScanTaskRunners | UniThread.cs:388-450 | The marks array is sized to the list, and the loop's marks, fields, log and abort flag are those of `ScanTasks` over all records |
| Scheduler.UniThread.NewMarks | UniThread.cs:388-388 | A fresh array of the given length with no mark set |
| Scheduler.UniThread.ScanFrom | UniThread.cs:390-450 | The loop stops at the end of the list or at the first abort, its state being `ScanTasks` of the records visited |
| Scheduler.UniThread.DrainAt | UniThread.cs:392-449 | Iteration i moves the scan state from the first i records to the first i + 1 |
| Scheduler.UniThread.DrainOne | UniThread.cs:392-449 | One iteration on one record does what `DrainTask` says: fields, events, mark and abort, including the failed report of an unnamed record. Positions are unchanged |
| Scheduler.UniThread.RemoveDrained | UniThread.cs:456-467 | The marked records are removed and the registry stays valid |
| Scheduler.UniThread.RemoveMarkedTasks | UniThread.cs:459-463 | The reverse `RemoveAt` loop leaves `Kept(list, marks)` |
| Scheduler.UniThread.DrainGroups | UniThread.cs:470-509 | The group scan logs as `ScanGroups` over the snapshot, and the groups left are exactly the unfinished ones |
| Scheduler.UniThread.ScanSnapshot | UniThread.cs:472-496 | The group loop over the snapshot marks exactly the groups at their barrier, logs as `ScanGroups`, and keeps the invariant |
| Scheduler.UniThread.ScanGroupList | UniThread.cs:472-496 | The group loop's marks and log are those of `ScanGroups` over the snapshot |
| Scheduler.UniThread.DrainGroupAt | UniThread.cs:476-491 | Iteration i moves the group scan from the first i groups to the first i + 1 |
| Scheduler.UniThread.DrainOneGroup | UniThread.cs:476-491 | One iteration on one group does what `DrainGroup` says |
| Scheduler.UniThread.RemoveFinishedGroups | UniThread.cs:498-509 | Removing the marked groups leaves exactly the unfinished ones |
| Scheduler.UniThread.RemoveMarkedGroups | UniThread.cs:501-505 | The reverse loop removes exactly the names of the marked snapshot groups |
| Scheduler.UniThread.AddKeepsValid | UniThread.cs:345-354 | Registering a record keeps the invariant |
| Scheduler.UniThread.JoinKeepsValid | UniThread.cs:366-373 | Joining a group at the next position keeps the invariant, including positions 0..n-1 |
| Scheduler.UniThread.CreateKeepsValid | UniThread.cs:233-245 | Registering a fresh group keeps the invariant |
| Scheduler.UniThread.FinishKeepsValid | UniThread.cs:289-298 | Completing a queued record keeps the invariant |
| Scheduler.UniThread.GroupKeepsValid | UniThread.cs:303-313 | Counting a completion, filling `Results` or firing the executor once keeps the invariant |
| Scheduler.UniThread.CompletionFollows | UniThread.cs:390-450 | The scan's effect on completion flags, read off the records |
| Scheduler.UniThread.DrainKeepsValid | UniThread.cs:390-450 | The task scan keeps the invariant |
| Scheduler.UniThread.ShrinkKeepsValid | UniThread.cs:456-509 | Removing records or groups and consuming queued work keep the invariant |
| Scheduler.UniThread.LogKeepsValid | UniThread.cs:320-322 | Logging keeps the invariant |

## Left out

- The `ReaderWriterLockSlim` locks and the per-group lock dictionary (UniThread.cs:37-39, 241, 280): every operation is atomic here, so the locks have nothing to protect.
- Interleavings inside `Update`: a record appended by another thread between the scan and the removal lands beyond the marks. `Removal.KeptKeepsAppended` states, on values, that such a record stays. `Update` itself runs as one step.
- `ThreadPool.QueueUserWorkItem` is the multiset `pending`, and the worker that runs next is the caller's choice.
- `ThreadExecuter` (UniThread.cs:252-266): the type dispatch is the `Job` datatype. For records and groups with non-null member names, its catch-all never fires, because both worker steps catch their own exceptions.
- `EnsureUniThreadRunner`, `Awake` and the `MonoBehaviour` plumbing (UniThread.cs:329-343, 381-383): these are engine set-up with no effect on the registry.
- Log message text and stack traces (UniThread.cs:85-87, 421-446, 483-489): each logged error is one abstract event. Of the formatting, only whether `string.Format` throws is modelled, from the argument indices of each format string. It throws only for the unnamed message at UniThread.cs:440-444.
- Execution of user code: outcomes and throws are inputs. A callback that re-enters the scheduler, for example by enqueueing, is not modelled.
- The dictionary's enumeration order is an input (`order`), constrained to list every key once.
- Null delegates passed as bodies are not modelled. A null callback is a presence flag. For the records the source's overloads register, a null body throws when run, which is the `Err` outcome. `EnqueueThreadedUnityTask` is the one exception: given a null job, the drain's test at UniThread.cs:408 would remove the record without calling `OnError`. The model's body is never null.
- A null member name in a group: `Results[null] = …` (UniThread.cs:308) throws `ArgumentNullException`. The `catch` at UniThread.cs:320 does not cover it, so the exception reaches the catch-all of `ThreadExecuter` (UniThread.cs:252-266), which logs it. `Results` is left partly filled, and an async group is never dispatched (UniThread.cs:310-313 are skipped), so its callback never runs. Group members are named here (`EnqueueAsyncUnityGroupTask` takes a non-null name), and the model does not capture this path. Task records outside a group may be unnamed.
- A null group name: `groups.ContainsKey(null)` in the group overloads (UniThread.cs:144, 173) and `groups.Add(null, …)` in `CreateGroup` (UniThread.cs:245) throw `ArgumentNullException` to the caller. Group names are non-null strings here, so the model does not capture this exception. The group registry is unchanged either way.
- `TaskGroup.TotalThreads` and the counter are unbounded integers. A 32-bit overflow of `++NumberOfThreadsComplete` is not modelled.
- `TaskRunner.GroupResults` and `TaskGroup.Empty` (UniThread.cs:53, 74-78) are never used by the source and are not modelled.
- Scheduler.UniThread.Update: its contract does not say that `pending` is unchanged. Its `modifies` clause leaves `pending` out, so callers get this from the frame.
- Scheduler.UniThread.RunGroupThread: it removes whatever group is registered under the name, as the code does. This includes a group of the same name created after the drain removed the finished one. The contract states this removal by name and no more.

## Findings

| source | as written | input that shows it | evidently intended | confidence | as-written member | corrected member |
|---|---|---|---|---|---|---|
| UniThread.cs:113-130 | The first `EnqueueAsyncUnityTask` overload never sets `IsThreaded`, so the record is not queued. The next drain runs its body synchronously on the main thread, and `onComplete` is never called | `EnqueueAsyncUnityTask("load", job, onComplete, onError)` with `job` returning a value: the drain runs `job` and removes the record without calling `onComplete` | As documented: the job runs on the thread pool, and `onComplete(result)` runs on the main thread when it completes | high (not executed) | Scheduler.UniThread.EnqueueAsyncUnityTask with Drain.UnthreadedNeverCompletes | Scheduler.UniThread.EnqueueThreadedUnityTask with Drain.ThreadedCompletes |
| UniThread.cs:440-444 | The failure message for an unnamed record is `string.Format("Thread <unnamed> failed to process {0} properly. {2}", success, errorInfo)`, with format item `{2}` but only two arguments, so it throws `FormatException` inside the `catch` at 421. That exception escapes `Update` like the abort at 402 | `EnqueueThreadedUnityTask(None, …)`, the first overload as documented, whose `OnComplete` throws. (As written, no overload puts a threaded result record into `taskRunners`, so this path opens once the first finding is fixed.) The drain ends at this record, no record is removed and no group is scanned. The record stays registered and complete, so every later drain in which the callback throws aborts on it again | The message `{1}` refers to `errorInfo`: the failure is logged, the record is removed and the drain goes on, as for a named record | high (not executed) | Drain.CallbackFailureReport with Drain.UnnamedFailureEscapes | Drain.IntendedCallbackFailureReport |
