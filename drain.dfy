/** What one drain (`UniThread.Update`) decides for each task record and each group record,
    stated over the records' fields so that the drain method can be proved against it. */
module Drain {
  import opened Common
  import opened Records

  /** A composite format string, known by the argument index of each of its format items
      (`{0}`, `{2}`, ...), applied to `argc` arguments. */
  datatype Format = Format(items: seq<nat>, argc: nat)

  /** `string.Format` succeeds exactly when every item refers to an argument that was passed;
      otherwise it throws `FormatException`. */
  predicate Formats(f: Format) {
    forall k :: 0 <= k < |f.items| ==> f.items[k] < f.argc
  }

  /** The message the drain logs when a callback of a threaded record throws. A named record
      formats `{0}`, `{1}` and `{2}` with its name, the callback kind and the error text. The
      unnamed message formats `{0}` and `{2}` with only the callback kind and the error text. */
  function CallbackFailureReport(name: Option<string>): (f: Format)
    ensures Formats(f) <==> name.Some?
  {
    match name
    case Some(_) => Format([0, 1, 2], 3)
    case None =>
      // item 1 is `{2}`, and there is no third argument
      assert Format([0, 2], 2).items[1] == 2;
      Format([0, 2], 2)
  }

  /** The unnamed message as evidently intended: its second item refers to the error text,
      the second argument. */
  function IntendedCallbackFailureReport(name: Option<string>): (f: Format)
    ensures Formats(f)
  {
    match name
    case Some(_) => Format([0, 1, 2], 3)
    case None => Format([0, 1], 2)
  }

  /** What the drain does with one task record: its fields afterwards, the events it causes,
      whether it is marked for removal, and whether an exception escaped the drain. */
  datatype TaskStep = TaskStep(state: TaskState, events: seq<Event>, marked: bool, aborted: bool)

  /** One iteration of the task scan over record `t`, whose fields are `s`. A non-threaded body
      running here produces `outcome`; `throws` says whether a callback invoked here throws. */
  function DrainTask(t: TaskRunner, s: TaskState, outcome: Outcome, throws: bool): TaskStep
  {
    if !s.isComplete && t.isThreaded then
      TaskStep(s, [], false, false)
    else if !t.isThreaded then
      var ran := AfterBody(t.body, s, outcome);
      var started := [BodyRan(t, MainThread)];
      match outcome
      case Ok(_) =>
        TaskStep(ran.(isComplete := true), started, true, false)
      case Err(e) =>
        if !t.hasOnError then
          TaskStep(ran.(isComplete := true), started, true, false)
        else if throws then
          TaskStep(ran, started + [Invoked(OnError(t, e), MainThread), UpdateFailed(OnError(t, e))], false, true)
        else
          TaskStep(ran.(isComplete := true), started + [Invoked(OnError(t, e), MainThread)], true, false)
    else if t.body != ResultBody then
      TaskStep(s, [], true, false)
    else
      var callback :=
        if s.exception == None then (if t.hasOnComplete then Some(OnComplete(t, s.result)) else None)
        else (if t.hasOnError then Some(OnError(t, s.exception.value)) else None);
      match callback
      case None => TaskStep(s, [], true, false)
      case Some(c) =>
        if !throws then
          TaskStep(s, [Invoked(c, MainThread)], true, false)
        else if Formats(CallbackFailureReport(t.name)) then
          TaskStep(s, [Invoked(c, MainThread), CallbackFailed(c)], true, false)
        else
          // formatting the report threw out of the `catch` block
          TaskStep(s, [Invoked(c, MainThread), UpdateFailed(c)], false, true)
  }

  /** Whether the drain invokes a callback for a complete threaded result record. */
  predicate HasCallback(t: TaskRunner, s: TaskState) {
    if s.exception == None then t.hasOnComplete else t.hasOnError
  }

  /** What one iteration of the task scan decides for a record. */
  lemma DrainTaskDecides(t: TaskRunner, s: TaskState, outcome: Outcome, throws: bool)
    ensures var r := DrainTask(t, s, outcome, throws);
            // a threaded record that is still running is skipped and stays registered
            && (t.isThreaded && !s.isComplete ==> r == TaskStep(s, [], false, false))
            // everything else is marked for removal, unless the drain is aborted
            && (r.marked <==> !r.aborted && (s.isComplete || !t.isThreaded))
            // a throwing OnError of a non-threaded record escapes the drain, and so does the
            // report of a throwing callback of an unnamed threaded result record; nothing else
            && (r.aborted <==>
                  || (!t.isThreaded && outcome.Err? && t.hasOnError && throws)
                  || (t.isThreaded && s.isComplete && t.body == ResultBody && HasCallback(t, s) &&
                      throws && t.name == None))
            // the drain never writes a threaded record
            && (t.isThreaded ==> r.state == s)
            // a non-threaded record's body runs here; the record is then complete unless the
            // drain was aborted
            && (!t.isThreaded ==> r.state == AfterBody(t.body, s, outcome).(isComplete := s.isComplete || !r.aborted))
  {
  }

  /** The events of one iteration of the task scan. A non-threaded record's body runs first, on
      the main thread, and an exception it throws goes to `OnError` only; a complete threaded
      record with a result body gets `OnComplete(Result)` when no exception was recorded and
      `OnError(Exception)` otherwise; a complete fire-and-forget record is dropped silently; and
      every callback is invoked on the main thread. */
  lemma DrainTaskEvents(t: TaskRunner, s: TaskState, outcome: Outcome, throws: bool)
    ensures var r := DrainTask(t, s, outcome, throws);
            && (t.isThreaded ==> BodyRan(t, MainThread) !in r.events)
            && (!t.isThreaded ==> |r.events| > 0 && r.events[0] == BodyRan(t, MainThread))
            && (!t.isThreaded ==>
                  Calls(r.events) == if outcome.Err? && t.hasOnError then [OnError(t, outcome.error)] else [])
            && (t.isThreaded && s.isComplete && t.body == ResultBody ==>
                  Calls(r.events) ==
                    if s.exception == None then (if t.hasOnComplete then [OnComplete(t, s.result)] else [])
                    else (if t.hasOnError then [OnError(t, s.exception.value)] else []))
            && (t.isThreaded && s.isComplete && t.body == ActionBody ==> r.events == [])
            && (forall e :: e in r.events && e.Invoked? ==> e.thread == MainThread)
  {
    var r := DrainTask(t, s, outcome, throws);
    if !t.isThreaded && outcome.Err? && t.hasOnError {
      var e := outcome.error;
      var started := [BodyRan(t, MainThread)];
      if throws {
        var escaped := [Invoked(OnError(t, e), MainThread), UpdateFailed(OnError(t, e))];
        CallsAppend(started, escaped);
        CallsAppend([escaped[0]], [escaped[1]]);
      } else {
        CallsAppend(started, [Invoked(OnError(t, e), MainThread)]);
      }
    }
  }

  /** A record that is not threaded, such as the one the first `EnqueueAsyncUnityTask`
      overload registers, never has its `OnComplete` called by the drain, whatever its body
      returns. */
  lemma UnthreadedNeverCompletes(t: TaskRunner, s: TaskState, outcome: Outcome, throws: bool)
    requires !t.isThreaded
    ensures forall c :: c in Calls(DrainTask(t, s, outcome, throws).events) ==> !c.OnComplete?
  {
    DrainTaskEvents(t, s, outcome, throws);
  }

  /** A threaded result record whose body returned has its `OnComplete` called with the result
      once a worker has completed it. */
  lemma ThreadedCompletes(t: TaskRunner, s: TaskState, outcome: Outcome, throws: bool)
    requires t.isThreaded && t.body == ResultBody && t.hasOnComplete
    requires s.isComplete && s.exception == None
    ensures Calls(DrainTask(t, s, outcome, throws).events) == [OnComplete(t, s.result)]
  {
    DrainTaskEvents(t, s, outcome, throws);
  }

  /** The drain's report of a throwing callback of an unnamed threaded result record throws
      out of the drain. The record is not marked and its fields are unchanged, so the next drain
      does the same again. */
  lemma UnnamedFailureEscapes(t: TaskRunner, s: TaskState, outcome: Outcome, throws: bool)
    requires t.isThreaded && t.body == ResultBody && t.name == None
    requires s.isComplete && HasCallback(t, s) && throws
    ensures var r := DrainTask(t, s, outcome, throws);
            && r.aborted && !r.marked && r.state == s
            && DrainTask(t, r.state, outcome, throws) == r
  {
  }

  /** The task scan after the first `n` records. */
  datatype TaskScan = TaskScan(states: seq<TaskState>, events: seq<Event>, marks: seq<bool>, aborted: bool)

  /** The task scan of the drain over the first `n` of the records `ts`, whose fields are `ss`:
      each record in turn, stopping after the first one that aborts the drain. */
  function ScanTasks(ts: seq<TaskRunner>, ss: seq<TaskState>, outcomes: seq<Outcome>,
                     throws: seq<bool>, n: nat): (r: TaskScan)
    requires n <= |ts| && |ss| == |ts| && |outcomes| == |ts| && |throws| == |ts|
    ensures |r.states| == |ts| && |r.marks| == |ts|
    decreases n
  {
    if n == 0 then
      TaskScan(ss, [], seq(|ts|, _ => false), false)
    else
      var r := ScanTasks(ts, ss, outcomes, throws, n - 1);
      if r.aborted then r
      else
        var step := DrainTask(ts[n - 1], ss[n - 1], outcomes[n - 1], throws[n - 1]);
        TaskScan(r.states[n - 1 := step.state], r.events + step.events,
                 r.marks[n - 1 := step.marked], step.aborted)
  }

  /** Records the scan has not reached are untouched and unmarked. */
  lemma {:induction false} ScanTasksUntouched(ts: seq<TaskRunner>, ss: seq<TaskState>, outcomes: seq<Outcome>,
                                              throws: seq<bool>, n: nat)
    requires n <= |ts| && |ss| == |ts| && |outcomes| == |ts| && |throws| == |ts|
    ensures forall k :: n <= k < |ts| ==>
              ScanTasks(ts, ss, outcomes, throws, n).states[k] == ss[k] &&
              !ScanTasks(ts, ss, outcomes, throws, n).marks[k]
    decreases n
  {
    if n > 0 {
      ScanTasksUntouched(ts, ss, outcomes, throws, n - 1);
    }
  }

  /** Without an abort, record `k`, which the scan reached, is handled on its own by `DrainTask`. */
  lemma {:induction false} ScanTasksAt(ts: seq<TaskRunner>, ss: seq<TaskState>, outcomes: seq<Outcome>,
                                       throws: seq<bool>, n: nat, k: nat)
    requires k < n <= |ts| && |ss| == |ts| && |outcomes| == |ts| && |throws| == |ts|
    ensures var r := ScanTasks(ts, ss, outcomes, throws, n);
            var step := DrainTask(ts[k], ss[k], outcomes[k], throws[k]);
            !r.aborted ==> !step.aborted && r.states[k] == step.state && r.marks[k] == step.marked
    decreases n
  {
    if k < n - 1 {
      ScanTasksAt(ts, ss, outcomes, throws, n - 1, k);
    }
  }

  /** A full scan that nothing escaped marks exactly the records that are not threaded records
      still running, so the drain keeps exactly those. */
  lemma ScanTasksMarksAllButRunning(ts: seq<TaskRunner>, ss: seq<TaskState>, outcomes: seq<Outcome>,
                                    throws: seq<bool>, k: nat)
    requires k < |ts| && |ss| == |ts| && |outcomes| == |ts| && |throws| == |ts|
    requires !ScanTasks(ts, ss, outcomes, throws, |ts|).aborted
    ensures ScanTasks(ts, ss, outcomes, throws, |ts|).marks[k] <==> !(ts[k].isThreaded && !ss[k].isComplete)
  {
    ScanTasksAt(ts, ss, outcomes, throws, |ts|, k);
    DrainTaskDecides(ts[k], ss[k], outcomes[k], throws[k]);
  }

  /** The events of a record the scan reached (the scan had not aborted before it) are in the
      events of the scan, right after those of the records before it, whether or not a later
      record aborts. */
  lemma {:induction false} ScanTasksReaches(ts: seq<TaskRunner>, ss: seq<TaskState>, outcomes: seq<Outcome>,
                                            throws: seq<bool>, n: nat, k: nat)
    requires k < n <= |ts| && |ss| == |ts| && |outcomes| == |ts| && |throws| == |ts|
    requires !ScanTasks(ts, ss, outcomes, throws, k).aborted
    ensures ScanTasks(ts, ss, outcomes, throws, k).events + DrainTask(ts[k], ss[k], outcomes[k], throws[k]).events
              <= ScanTasks(ts, ss, outcomes, throws, n).events
    decreases n
  {
    if k < n - 1 {
      ScanTasksReaches(ts, ss, outcomes, throws, n - 1, k);
    }
  }

  /** A callback of a prefix of the events is a callback of the events. */
  lemma CallsPrefix(a: seq<Event>, b: seq<Event>, c: Callback)
    requires a <= b && c in Calls(a)
    ensures c in Calls(b)
  {
    assert b == a + b[|a|..];
    CallsAppend(a, b[|a|..]);
  }

  /** A complete threaded result record with no `Exception` that the scan reached has its
      `OnComplete` called with its `Result`. */
  lemma ScanTasksInvokesComplete(ts: seq<TaskRunner>, ss: seq<TaskState>, outcomes: seq<Outcome>,
                                 throws: seq<bool>, n: nat, k: nat)
    requires k < n <= |ts| && |ss| == |ts| && |outcomes| == |ts| && |throws| == |ts|
    requires !ScanTasks(ts, ss, outcomes, throws, k).aborted
    requires ts[k].isThreaded && ts[k].body == ResultBody && ts[k].hasOnComplete
    requires ss[k].isComplete && ss[k].exception == None
    ensures OnComplete(ts[k], ss[k].result) in Calls(ScanTasks(ts, ss, outcomes, throws, n).events)
  {
    var before := ScanTasks(ts, ss, outcomes, throws, k).events;
    var step := DrainTask(ts[k], ss[k], outcomes[k], throws[k]).events;
    ThreadedCompletes(ts[k], ss[k], outcomes[k], throws[k]);
    ScanTasksReaches(ts, ss, outcomes, throws, n, k);
    CallsAppend(before, step);
    CallsPrefix(before + step, ScanTasks(ts, ss, outcomes, throws, n).events, OnComplete(ts[k], ss[k].result));
  }

  /** A complete threaded result record with an `Exception` that the scan reached has its
      `OnError` called with that exception. */
  lemma ScanTasksInvokesError(ts: seq<TaskRunner>, ss: seq<TaskState>, outcomes: seq<Outcome>,
                              throws: seq<bool>, n: nat, k: nat)
    requires k < n <= |ts| && |ss| == |ts| && |outcomes| == |ts| && |throws| == |ts|
    requires !ScanTasks(ts, ss, outcomes, throws, k).aborted
    requires ts[k].isThreaded && ts[k].body == ResultBody && ts[k].hasOnError
    requires ss[k].isComplete && ss[k].exception.Some?
    ensures OnError(ts[k], ss[k].exception.value) in Calls(ScanTasks(ts, ss, outcomes, throws, n).events)
  {
    var before := ScanTasks(ts, ss, outcomes, throws, k).events;
    var step := DrainTask(ts[k], ss[k], outcomes[k], throws[k]).events;
    DrainTaskEvents(ts[k], ss[k], outcomes[k], throws[k]);
    ScanTasksReaches(ts, ss, outcomes, throws, n, k);
    CallsAppend(before, step);
    CallsPrefix(before + step, ScanTasks(ts, ss, outcomes, throws, n).events, OnError(ts[k], ss[k].exception.value));
  }

  /** The record whose iteration of the task scan gave the scan's `j`-th callback. */
  ghost function CallOrigin(ts: seq<TaskRunner>, ss: seq<TaskState>, outcomes: seq<Outcome>,
                            throws: seq<bool>, n: nat, j: nat): (k: int)
    requires n <= |ts| && |ss| == |ts| && |outcomes| == |ts| && |throws| == |ts|
    requires j < |Calls(ScanTasks(ts, ss, outcomes, throws, n).events)|
    ensures 0 <= k < n
    decreases n
  {
    if n == 0 then assert false; 0
    else
      var before := ScanTasks(ts, ss, outcomes, throws, n - 1);
      if before.aborted || j < |Calls(before.events)| then CallOrigin(ts, ss, outcomes, throws, n - 1, j)
      else n - 1
  }

  /** Every callback the task scan invokes is one that `DrainTask` gives for a record the scan
      reached. */
  lemma {:induction false} ScanTasksInvokesOnlyReached(ts: seq<TaskRunner>, ss: seq<TaskState>, outcomes: seq<Outcome>,
                                                       throws: seq<bool>, n: nat, j: nat)
    requires n <= |ts| && |ss| == |ts| && |outcomes| == |ts| && |throws| == |ts|
    requires j < |Calls(ScanTasks(ts, ss, outcomes, throws, n).events)|
    ensures var k := CallOrigin(ts, ss, outcomes, throws, n, j);
            && !ScanTasks(ts, ss, outcomes, throws, k).aborted
            && Calls(ScanTasks(ts, ss, outcomes, throws, n).events)[j] in
                 Calls(DrainTask(ts[k], ss[k], outcomes[k], throws[k]).events)
    decreases n
  {
    var before := ScanTasks(ts, ss, outcomes, throws, n - 1);
    var last := DrainTask(ts[n - 1], ss[n - 1], outcomes[n - 1], throws[n - 1]).events;
    var all := Calls(ScanTasks(ts, ss, outcomes, throws, n).events);
    if before.aborted || j < |Calls(before.events)| {
      assert all[j] == Calls(before.events)[j] by {
        if !before.aborted {
          CallsAppend(before.events, last);
        }
      }
      ScanTasksInvokesOnlyReached(ts, ss, outcomes, throws, n - 1, j);
    } else {
      assert all[j] in Calls(last) by {
        CallsAppend(before.events, last);
      }
    }
  }

  /** The scan aborts only when a record it reached aborts. */
  lemma {:induction false} ScanTasksAborts(ts: seq<TaskRunner>, ss: seq<TaskState>, outcomes: seq<Outcome>,
                                           throws: seq<bool>, n: nat)
    requires n <= |ts| && |ss| == |ts| && |outcomes| == |ts| && |throws| == |ts|
    ensures ScanTasks(ts, ss, outcomes, throws, n).aborted ==>
              exists k :: 0 <= k < n && DrainTask(ts[k], ss[k], outcomes[k], throws[k]).aborted
    decreases n
  {
    if n > 0 {
      ScanTasksAborts(ts, ss, outcomes, throws, n - 1);
      if !ScanTasks(ts, ss, outcomes, throws, n - 1).aborted && ScanTasks(ts, ss, outcomes, throws, n).aborted {
        assert DrainTask(ts[n - 1], ss[n - 1], outcomes[n - 1], throws[n - 1]).aborted;
      }
    }
  }

  /** A record the scan reached that aborts ends the scan there: the records after it are not
      visited. */
  lemma ScanTasksEscapesAt(ts: seq<TaskRunner>, ss: seq<TaskState>, outcomes: seq<Outcome>,
                           throws: seq<bool>, n: nat, k: nat)
    requires k < n <= |ts| && |ss| == |ts| && |outcomes| == |ts| && |throws| == |ts|
    requires !ScanTasks(ts, ss, outcomes, throws, k).aborted
    requires DrainTask(ts[k], ss[k], outcomes[k], throws[k]).aborted
    ensures ScanTasks(ts, ss, outcomes, throws, n).aborted
    ensures ScanTasks(ts, ss, outcomes, throws, n) == ScanTasks(ts, ss, outcomes, throws, k + 1)
  {
    ScanTasksStaysAborted(ts, ss, outcomes, throws, k + 1, n);
  }

  /** Even an aborted scan leaves a threaded record alone and never clears `IsComplete`. */
  lemma {:induction false} ScanTasksMonotone(ts: seq<TaskRunner>, ss: seq<TaskState>, outcomes: seq<Outcome>,
                                             throws: seq<bool>, n: nat, k: nat)
    requires n <= |ts| && k < |ts| && |ss| == |ts| && |outcomes| == |ts| && |throws| == |ts|
    ensures ts[k].isThreaded ==> ScanTasks(ts, ss, outcomes, throws, n).states[k] == ss[k]
    ensures ss[k].isComplete ==> ScanTasks(ts, ss, outcomes, throws, n).states[k].isComplete
    decreases n
  {
    if n > 0 {
      ScanTasksMonotone(ts, ss, outcomes, throws, n - 1, k);
      DrainTaskDecides(ts[n - 1], ss[n - 1], outcomes[n - 1], throws[n - 1]);
    }
  }

  /** Once the scan has aborted, scanning further records changes nothing. */
  lemma {:induction false} ScanTasksStaysAborted(ts: seq<TaskRunner>, ss: seq<TaskState>, outcomes: seq<Outcome>,
                                                 throws: seq<bool>, i: nat, n: nat)
    requires i <= n <= |ts| && |ss| == |ts| && |outcomes| == |ts| && |throws| == |ts|
    requires ScanTasks(ts, ss, outcomes, throws, i).aborted
    ensures ScanTasks(ts, ss, outcomes, throws, n) == ScanTasks(ts, ss, outcomes, throws, i)
    decreases n
  {
    if n > i {
      ScanTasksStaysAborted(ts, ss, outcomes, throws, i, n - 1);
    }
  }

  /** Over the whole scan, threaded records keep their state and no record loses its completion. */
  lemma ScanTasksKeepsCompletion(ts: seq<TaskRunner>, ss: seq<TaskState>, outcomes: seq<Outcome>, throws: seq<bool>)
    requires |ss| == |ts| && |outcomes| == |ts| && |throws| == |ts|
    ensures forall k :: 0 <= k < |ts| ==>
              && (ts[k].isThreaded ==> ScanTasks(ts, ss, outcomes, throws, |ts|).states[k] == ss[k])
              && (ss[k].isComplete ==> ScanTasks(ts, ss, outcomes, throws, |ts|).states[k].isComplete)
  {
    forall k | 0 <= k < |ts|
      ensures ts[k].isThreaded ==> ScanTasks(ts, ss, outcomes, throws, |ts|).states[k] == ss[k]
      ensures ss[k].isComplete ==> ScanTasks(ts, ss, outcomes, throws, |ts|).states[k].isComplete
    {
      ScanTasksMonotone(ts, ss, outcomes, throws, |ts|, k);
    }
  }

  /** Invoking a group's callback with `results` on `thread`. A null callback throws a
      `NullReferenceException`, so it appears as a failure only. */
  function InvokeGroupCallback(g: TaskGroup, results: map<string, Value>, throws: bool, thread: Thread): (r: seq<Event>)
    ensures |r| > 0
  {
    var c := GroupOnComplete(g, results);
    if !g.hasOnComplete then [CallbackFailed(c)]
    else [Invoked(c, thread)] + (if throws then [CallbackFailed(c)] else [])
  }

  /** What the drain does with one group record. */
  datatype GroupStep = GroupStep(events: seq<Event>, marked: bool)

  /** One iteration of the group scan: a group at its barrier is marked for removal, and only a
      non-async one has its callback invoked here, with its `Results`. */
  function DrainGroup(g: TaskGroup, throws: bool): (r: GroupStep)
    reads g
    ensures r.marked <==> g.AllThreadsComplete()
    ensures !g.AllThreadsComplete() || g.isAsync ==> r.events == []
  {
    if !g.AllThreadsComplete() then GroupStep([], false)
    else if g.isAsync then GroupStep([], true)
    else GroupStep(InvokeGroupCallback(g, g.results, throws, MainThread), true)
  }

  /** The callback is invoked, when it is not null, with `results` on `thread`; it is logged as
      failed exactly when it is null or throws. */
  lemma InvokeGroupCallbackCalls(g: TaskGroup, results: map<string, Value>, throws: bool, thread: Thread)
    ensures var r := InvokeGroupCallback(g, results, throws, thread);
            && Calls(r) == (if g.hasOnComplete then [GroupOnComplete(g, results)] else [])
            && (CallbackFailed(GroupOnComplete(g, results)) in r <==> !g.hasOnComplete || throws)
            && (forall e :: e in r && e.Invoked? ==> e.thread == thread)
  {
    var c := GroupOnComplete(g, results);
    if g.hasOnComplete {
      CallsAppend([Invoked(c, thread)], if throws then [CallbackFailed(c)] else []);
    }
  }

  /** Only a non-async group at its barrier has its callback invoked by the drain, with its
      `Results`. */
  lemma DrainGroupCalls(g: TaskGroup, throws: bool)
    ensures Calls(DrainGroup(g, throws).events) ==
              if g.AllThreadsComplete() && !g.isAsync && g.hasOnComplete then [GroupOnComplete(g, g.results)] else []
  {
    InvokeGroupCallbackCalls(g, g.results, throws, MainThread);
  }

  /** The drain invokes group callbacks on the main thread. */
  lemma DrainGroupOnMainThread(g: TaskGroup, throws: bool)
    ensures forall e :: e in DrainGroup(g, throws).events && e.Invoked? ==> e.thread == MainThread
  {
    InvokeGroupCallbackCalls(g, g.results, throws, MainThread);
  }

  /** The group scan after the first `n` entries of the snapshot. */
  datatype GroupScan = GroupScan(events: seq<Event>, marks: seq<bool>)

  /** The group scan of the drain over the first `n` entries of the snapshot `gs`. */
  function ScanGroups(gs: seq<TaskGroup>, throws: seq<bool>, n: nat): (r: GroupScan)
    reads gs
    requires n <= |gs| && |throws| == |gs|
    ensures |r.marks| == |gs|
    // exactly the groups at their barrier are marked, whether async or not
    ensures forall k :: 0 <= k < |gs| ==> (r.marks[k] <==> k < n && gs[k].AllThreadsComplete())
    decreases n
  {
    if n == 0 then GroupScan([], seq(|gs|, _ => false))
    else
      var r := ScanGroups(gs, throws, n - 1);
      var step := DrainGroup(gs[n - 1], throws[n - 1]);
      GroupScan(r.events + step.events, r.marks[n - 1 := step.marked])
  }

  /** Whether the drain invokes `g`'s callback: it is at its barrier and not async. */
  predicate SyncGroupDue(g: TaskGroup)
    reads g
  {
    g.AllThreadsComplete() && !g.isAsync && g.hasOnComplete
  }

  /** Every non-async group of the snapshot at its barrier has its callback invoked, with its
      `Results`. */
  lemma {:induction false} ScanGroupsInvokesDue(gs: seq<TaskGroup>, throws: seq<bool>, n: nat, k: nat)
    requires k < n <= |gs| && |throws| == |gs|
    requires SyncGroupDue(gs[k])
    ensures GroupOnComplete(gs[k], gs[k].results) in Calls(ScanGroups(gs, throws, n).events)
    decreases n
  {
    var before := ScanGroups(gs, throws, n - 1).events;
    var last := DrainGroup(gs[n - 1], throws[n - 1]).events;
    CallsAppend(before, last);
    if k == n - 1 {
      DrainGroupCalls(gs[k], throws[k]);
      assert Calls(last) == [GroupOnComplete(gs[k], gs[k].results)];
    } else {
      ScanGroupsInvokesDue(gs, throws, n - 1, k);
    }
  }

  /** Every callback the group scan invokes belongs to a non-async group of the snapshot at its
      barrier, and receives that group's `Results`. */
  lemma {:induction false} ScanGroupsInvokesOnlyDue(gs: seq<TaskGroup>, throws: seq<bool>, n: nat, j: nat)
    requires n <= |gs| && |throws| == |gs|
    requires j < |Calls(ScanGroups(gs, throws, n).events)|
    ensures exists k :: 0 <= k < n && SyncGroupDue(gs[k]) &&
                        Calls(ScanGroups(gs, throws, n).events)[j] == GroupOnComplete(gs[k], gs[k].results)
    decreases n
  {
    if n == 0 {
      assert false;
    } else {
      var before := ScanGroups(gs, throws, n - 1).events;
      var last := DrainGroup(gs[n - 1], throws[n - 1]).events;
      CallsAppend(before, last);
      if j < |Calls(before)| {
        ScanGroupsInvokesOnlyDue(gs, throws, n - 1, j);
        var k :| 0 <= k < n - 1 && SyncGroupDue(gs[k]) && Calls(before)[j] == GroupOnComplete(gs[k], gs[k].results);
        assert Calls(ScanGroups(gs, throws, n).events)[j] == Calls(before)[j];
      } else {
        DrainGroupCalls(gs[n - 1], throws[n - 1]);
        assert Calls(ScanGroups(gs, throws, n).events)[j] == Calls(last)[j - |Calls(before)|];
      }
    }
  }

  /** The group scan invokes callbacks on the main thread only. */
  lemma {:induction false} ScanGroupsOnMainThread(gs: seq<TaskGroup>, throws: seq<bool>, n: nat)
    requires n <= |gs| && |throws| == |gs|
    ensures forall e :: e in ScanGroups(gs, throws, n).events && e.Invoked? ==> e.thread == MainThread
    decreases n
  {
    if n > 0 {
      ScanGroupsOnMainThread(gs, throws, n - 1);
      DrainGroupOnMainThread(gs[n - 1], throws[n - 1]);
    }
  }
}
