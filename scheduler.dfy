/** The scheduler (`UniThread`): the registry of task records and group records, the thread-pool
    queue, and the operations that change them. Each operation is one atomic step; the locks that
    make them atomic in the source are not modelled. The static fields of the source are the
    fields of one scheduler object here. */
module Scheduler {
  import opened Common
  import opened Records
  import opened Removal
  import opened GroupResults
  import opened Drain

  /** `order` lists every key of `groups` once: the order in which the dictionary enumerates
      its values. */
  predicate IsEnumeration(order: seq<string>, groups: map<string, TaskGroup>) {
    && (forall k :: 0 <= k < |order| ==> order[k] in groups)
    && (forall n :: n in groups ==> n in order)
    && (forall k, l :: 0 <= k < l < |order| ==> order[k] != order[l])
  }

  /** The fields of every record in `ts`, in order. */
  function States(ts: seq<TaskRunner>): (r: seq<TaskState>)
    reads ts
    ensures |r| == |ts| && forall k :: 0 <= k < |ts| ==> r[k] == ts[k].State()
  {
    if ts == [] then [] else [ts[0].State()] + States(ts[1..])
  }

  /** The states of the records, given one by one. */
  lemma StatesAre(ts: seq<TaskRunner>, states: seq<TaskState>)
    requires |states| == |ts| && forall k :: 0 <= k < |ts| ==> ts[k].State() == states[k]
    ensures States(ts) == states
  {
  }

  /** A list of distinct names that holds exactly the names of `keys` is as long as `keys` is
      large. */
  lemma {:induction false} DistinctLength(order: seq<string>, keys: set<string>)
    requires forall k :: 0 <= k < |order| ==> order[k] in keys
    requires forall n :: n in keys ==> n in order
    requires forall k, l :: 0 <= k < l < |order| ==> order[k] != order[l]
    ensures |order| == |keys|
    decreases |order|
  {
    if order != [] {
      var rest := keys - {order[0]};
      forall n | n in rest ensures n in order[1..] {
        var k :| 0 <= k < |order| && order[k] == n;
        assert order[1..][k - 1] == n;
      }
      DistinctLength(order[1..], rest);
    }
  }

  /** The dictionary's values in the enumeration order `order`: `groups.Values.ToArray()`. */
  function Snapshot(groups: map<string, TaskGroup>, order: seq<string>): seq<TaskGroup>
    requires IsEnumeration(order, groups)
  {
    seq(|order|, k requires 0 <= k < |order| => groups[order[k]])
  }

  /** The snapshot holds every registered group, one entry per key. */
  lemma SnapshotHoldsAll(groups: map<string, TaskGroup>, order: seq<string>)
    requires IsEnumeration(order, groups)
    ensures |Snapshot(groups, order)| == |groups|
    ensures forall n :: n in groups ==> groups[n] in Snapshot(groups, order)
  {
    DistinctLength(order, groups.Keys);
    var gs := Snapshot(groups, order);
    forall n | n in groups ensures groups[n] in gs {
      var k :| 0 <= k < |order| && order[k] == n;
      assert gs[k] == groups[n];
    }
  }

  /** The groups that have not reached their barrier. */
  function Unfinished(groups: map<string, TaskGroup>): (r: map<string, TaskGroup>)
    reads groups.Values
    ensures forall n :: n in r <==> n in groups && !groups[n].AllThreadsComplete()
    ensures forall n :: n in r ==> r[n] == groups[n]
  {
    map n | n in groups && !groups[n].AllThreadsComplete() :: groups[n]
  }

  /** The names of the groups of `gs` marked at index `from` or later. */
  function MarkedNames(gs: seq<TaskGroup>, marks: seq<bool>, from: nat): set<string> {
    set k | from <= k < |gs| && k < |marks| && marks[k] :: gs[k].name
  }

  /** Removing, by name, the groups of a snapshot marked exactly when they are at their barrier
      leaves the unfinished groups. */
  lemma RemovingCompleteLeavesUnfinished(groups: map<string, TaskGroup>, order: seq<string>, marks: seq<bool>)
    requires IsEnumeration(order, groups) && forall n :: n in groups ==> groups[n].name == n
    requires |marks| == |order|
    requires forall k :: 0 <= k < |order| ==> (marks[k] <==> groups[order[k]].AllThreadsComplete())
    ensures groups - MarkedNames(Snapshot(groups, order), marks, 0) == Unfinished(groups)
  {
    var gs := Snapshot(groups, order);
    var removed := MarkedNames(gs, marks, 0);
    SnapshotHoldsAll(groups, order);
    forall n | n in groups
      ensures n in removed <==> groups[n].AllThreadsComplete()
    {
      var k :| 0 <= k < |gs| && gs[k] == groups[n];
      assert gs[k].name == n;
      if n in removed {
        var j :| 0 <= j < |gs| && j < |marks| && marks[j] && gs[j].name == n;
        assert order[j] == n;
      }
    }
    assert groups - removed == Unfinished(groups);
  }

  class UniThread {
    var groups: map<string, TaskGroup>
    var taskRunners: seq<TaskRunner>
    /** The thread pool's queue: the work items submitted and not yet started. */
    var pending: multiset<Job>
    /** What user code was run or asked to run, and what the scheduler logged, in order. */
    var log: seq<Event>
    /** Every record this scheduler created. */
    ghost var Repr: set<object>
    /** For every group created, the task records its counter has counted. */
    ghost var credited: map<TaskGroup, set<TaskRunner>>

    ghost predicate Valid()
      reads this, Repr
    {
      this !in Repr && TasksValid() && GroupsNamed() && MembersPlaced() && CountersValid() && PendingValid()
    }

    /** `taskRunners` holds distinct records without a group. */
    ghost predicate TasksValid()
      reads this`taskRunners, this`Repr
    {
      && (forall i :: 0 <= i < |taskRunners| ==> taskRunners[i] in Repr && taskRunners[i].groupName == None)
      && (forall i, j :: 0 <= i < j < |taskRunners| ==> taskRunners[i] != taskRunners[j])
    }

    /** Every group is registered under its own name. */
    ghost predicate GroupsNamed()
      reads this`groups, this`Repr, this`credited
    {
      forall n :: n in groups ==> groups[n] in Repr && groups[n].name == n && groups[n] in credited
    }

    /** A live group's members carry its name and their positions 0, 1, ... in list order, and
        they are threaded result tasks. */
    ghost predicate MembersPlaced()
      reads this`groups, this`Repr, Repr
    {
      forall n, i :: n in groups && groups[n] in Repr && 0 <= i < |groups[n].taskRunners| ==>
        var m := groups[n].taskRunners[i];
        && m in Repr
        && m.groupName == Some(n) && m.positionInGroup == i && m.name.Some?
        && m.isThreaded && m.body == ResultBody
    }

    /** A live group's counter counts distinct completed records, its `Results` stay empty
        until the counter reaches `TotalThreads`, and only an async group ever fires its
        executor. */
    ghost predicate CountersValid()
      reads this`groups, this`Repr, this`credited, Repr
    {
      && (forall n :: n in groups && groups[n] in Repr && groups[n] in credited ==>
            && groups[n].numberOfThreadsComplete == |credited[groups[n]]|
            && (groups[n].numberOfThreadsComplete < groups[n].totalThreads ==> groups[n].results == map[])
            && (groups[n].hasFiredExecutor ==> groups[n].isAsync))
      && (forall n, t: TaskRunner :: n in groups && groups[n] in credited && t in credited[groups[n]] ==>
            t in Repr && t.isComplete)
    }

    /** Every queued work item is queued once: a task record that has not completed, or an async
        group whose executor has fired. */
    ghost predicate PendingValid()
      reads this`pending, this`Repr, Repr
    {
      forall j :: j in pending ==> pending[j] == 1 && JobValid(j)
    }

    ghost predicate JobValid(j: Job)
      reads this`Repr, Repr
    {
      match j
      case RunTask(t) => t in Repr && t.isThreaded && !t.isComplete
      case RunGroup(g) => g in Repr && g.isAsync && g.hasFiredExecutor
    }

    constructor ()
      ensures Valid()
      ensures groups == map[] && taskRunners == [] && pending == multiset{} && log == []
      ensures Repr == {} && credited == map[]
    {
      groups := map[];
      taskRunners := [];
      pending := multiset{};
      log := [];
      Repr := {};
      credited := map[];
    }

    /** Registers a record without a group, and queues it when it is threaded. */
    method Add(taskRunner: TaskRunner)
      requires Valid() && taskRunner !in Repr
      requires taskRunner.groupName == None && !taskRunner.isComplete
      modifies this
      ensures Valid() && Repr == old(Repr) + {taskRunner}
      ensures taskRunners == old(taskRunners) + [taskRunner]
      ensures pending == old(pending) + if taskRunner.isThreaded then multiset{RunTask(taskRunner)} else multiset{}
      ensures groups == old(groups) && log == old(log) && credited == old(credited)
    {
      Repr := Repr + {taskRunner};
      taskRunners := taskRunners + [taskRunner];
      if taskRunner.isThreaded {
        pending := pending + multiset{RunTask(taskRunner)};
      }
      AddKeepsValid(taskRunner);
    }

    /** Appends a record to the member list of the group it names, at the next position, and
        queues it. */
    method AddToGroup(taskRunner: TaskRunner)
      requires Valid() && taskRunner !in Repr
      requires taskRunner.groupName.Some? && taskRunner.groupName.value in groups
      requires taskRunner.isThreaded && taskRunner.body == ResultBody && !taskRunner.isComplete
      requires taskRunner.name.Some?
      modifies this, groups[taskRunner.groupName.value], taskRunner
      ensures groups == old(groups) && taskRunners == old(taskRunners)
      ensures Valid() && Repr == old(Repr) + {taskRunner}
      ensures var g := groups[taskRunner.groupName.value];
              && taskRunner.positionInGroup == |old(g.taskRunners)|
              && g.taskRunners == old(g.taskRunners) + [taskRunner]
              && g.numberOfThreadsComplete == old(g.numberOfThreadsComplete)
              && g.results == old(g.results) && g.hasFiredExecutor == old(g.hasFiredExecutor)
      ensures taskRunner.State() == old(taskRunner.State())
      ensures pending == old(pending) + multiset{RunTask(taskRunner)}
      ensures log == old(log) && credited == old(credited)
    {
      var group := groups[taskRunner.groupName.value];
      var position := |group.taskRunners|;
      taskRunner.positionInGroup := position;
      group.taskRunners := group.taskRunners + [taskRunner];
      pending := pending + multiset{RunTask(taskRunner)};
      Repr := Repr + {taskRunner};
      JoinKeepsValid(taskRunner);
    }

    /** Registers a new group with no completions, no members and no results. A name that is
        already registered makes `Dictionary.Add` throw, and nothing changes. */
    method CreateGroup(groupName: string, totalThreads: int, isAsync: bool, hasOnComplete: bool)
      returns (r: Result<TaskGroup>)
      requires Valid()
      modifies this
      ensures Valid()
      ensures groupName in old(groups) ==>
                r == Failure(DuplicateKey(groupName)) && groups == old(groups) &&
                Repr == old(Repr) && credited == old(credited)
      ensures groupName !in old(groups) ==>
                && r.Success? && fresh(r.value)
                && groups == old(groups)[groupName := r.value]
                && r.value.name == groupName && r.value.totalThreads == totalThreads
                && r.value.isAsync == isAsync && r.value.hasOnComplete == hasOnComplete
                && r.value.numberOfThreadsComplete == 0 && r.value.taskRunners == []
                && r.value.results == map[] && !r.value.hasFiredExecutor
                && Repr == old(Repr) + {r.value} && credited == old(credited)[r.value := {}]
      ensures taskRunners == old(taskRunners) && pending == old(pending) && log == old(log)
    {
      var taskGroup := new TaskGroup(groupName, totalThreads, isAsync, hasOnComplete);
      if groupName in groups {
        return Failure(DuplicateKey(groupName));
      }
      groups := groups[groupName := taskGroup];
      Repr := Repr + {taskGroup};
      credited := credited[taskGroup := {}];
      CreateKeepsValid(taskGroup);
      r := Success(taskGroup);
    }

    /** The first `EnqueueAsyncUnityTask` overload: a result task without a group. It never sets
        `IsThreaded`, so the record is not queued: the drain runs it. */
    method EnqueueAsyncUnityTask(name: Option<string>, hasOnComplete: bool, hasOnError: bool)
      returns (t: TaskRunner)
      requires Valid()
      modifies this
      ensures Valid() && fresh(t) && Repr == old(Repr) + {t}
      ensures t.name == name && t.groupName == None && t.body == ResultBody && !t.isThreaded
      ensures t.hasOnComplete == hasOnComplete && t.hasOnError == hasOnError
      ensures t.State() == TaskState(false, Null, None)
      ensures taskRunners == old(taskRunners) + [t] && pending == old(pending)
      ensures groups == old(groups) && log == old(log) && credited == old(credited)
    {
      t := new TaskRunner(name, None, ResultBody, false, hasOnComplete, hasOnError);
      Add(t);
    }

    /** The first `EnqueueAsyncUnityTask` overload as its documentation describes it: the record
        is threaded, so it is queued for a worker and its callbacks fire in the drain. */
    method EnqueueThreadedUnityTask(name: Option<string>, hasOnComplete: bool, hasOnError: bool)
      returns (t: TaskRunner)
      requires Valid()
      modifies this
      ensures Valid() && fresh(t) && Repr == old(Repr) + {t}
      ensures t.name == name && t.groupName == None && t.body == ResultBody && t.isThreaded
      ensures t.hasOnComplete == hasOnComplete && t.hasOnError == hasOnError
      ensures t.State() == TaskState(false, Null, None)
      ensures taskRunners == old(taskRunners) + [t] && pending == old(pending) + multiset{RunTask(t)}
      ensures groups == old(groups) && log == old(log) && credited == old(credited)
    {
      t := new TaskRunner(name, None, ResultBody, true, hasOnComplete, hasOnError);
      Add(t);
    }

    /** The two group overloads of `EnqueueAsyncUnityTask`, which differ only in whether an
        `onComplete` is passed. An undeclared group raises before anything is registered;
        otherwise the record is appended to the group at the next position and queued, and it
        is never added to `taskRunners`. A member's name is a dictionary key at the barrier, so
        it is never null here. */
    method EnqueueAsyncUnityGroupTask(name: string, groupName: string, hasOnComplete: bool, hasOnError: bool)
      returns (r: Result<TaskRunner>)
      requires Valid()
      modifies this, if groupName in groups then {groups[groupName]} else {}
      ensures Valid()
      ensures groupName !in old(groups) ==>
                r == Failure(NoGroupNamed(groupName)) && pending == old(pending) &&
                Repr == old(Repr)
      ensures groupName in old(groups) ==>
                var g := old(groups[groupName]);
                && r.Success? && fresh(r.value)
                && r.value.name == Some(name) && r.value.groupName == Some(groupName)
                && r.value.body == ResultBody && r.value.isThreaded
                && r.value.hasOnComplete == hasOnComplete && r.value.hasOnError == hasOnError
                && r.value.State() == TaskState(false, Null, None)
                && r.value.positionInGroup == |old(g.taskRunners)|
                && g.taskRunners == old(g.taskRunners) + [r.value]
                && g.numberOfThreadsComplete == old(g.numberOfThreadsComplete)
                && g.results == old(g.results) && g.hasFiredExecutor == old(g.hasFiredExecutor)
                && pending == old(pending) + multiset{RunTask(r.value)}
                && Repr == old(Repr) + {r.value}
      ensures groups == old(groups) && taskRunners == old(taskRunners)
      ensures log == old(log) && credited == old(credited)
    {
      if groupName !in groups {
        return Failure(NoGroupNamed(groupName));
      }
      var t := new TaskRunner(Some(name), Some(groupName), ResultBody, true, hasOnComplete, hasOnError);
      AddToGroup(t);
      r := Success(t);
    }

    /** `EnqueueAsyncTask`: a threaded fire-and-forget `Action` without a group. */
    method EnqueueAsyncTask(name: Option<string>, hasOnError: bool) returns (t: TaskRunner)
      requires Valid()
      modifies this
      ensures Valid() && fresh(t) && Repr == old(Repr) + {t}
      ensures t.name == name && t.groupName == None && t.body == ActionBody && t.isThreaded
      ensures !t.hasOnComplete && t.hasOnError == hasOnError
      ensures t.State() == TaskState(false, Null, None)
      ensures taskRunners == old(taskRunners) + [t] && pending == old(pending) + multiset{RunTask(t)}
      ensures groups == old(groups) && log == old(log) && credited == old(credited)
    {
      t := new TaskRunner(name, None, ActionBody, true, false, hasOnError);
      Add(t);
    }

    /** `EnqueueSyncedUnityTask`: an `Action` that the next drain runs on the main thread. */
    method EnqueueSyncedUnityTask(name: Option<string>, hasOnError: bool) returns (t: TaskRunner)
      requires Valid()
      modifies this
      ensures Valid() && fresh(t) && Repr == old(Repr) + {t}
      ensures t.name == name && t.groupName == None && t.body == ActionBody && !t.isThreaded
      ensures !t.hasOnComplete && t.hasOnError == hasOnError
      ensures t.State() == TaskState(false, Null, None)
      ensures taskRunners == old(taskRunners) + [t] && pending == old(pending)
      ensures groups == old(groups) && log == old(log) && credited == old(credited)
    {
      t := new TaskRunner(name, None, ActionBody, false, false, hasOnError);
      Add(t);
    }

    /** The group record a worker for `t` finds, if any. */
    function GroupOf(t: TaskRunner): (r: set<object>)
      reads this
      ensures r != {} <==> t.groupName.Some? && t.groupName.value in groups
      ensures t.groupName.Some? && t.groupName.value in groups ==> r == {groups[t.groupName.value]}
    {
      if t.groupName.Some? && t.groupName.value in groups then {groups[t.groupName.value]} else {}
    }

    /** A worker runs a queued record: its body's value or exception is stored and the record is
        complete whatever happened. A record of a group counts one completion for the group
        registered under its name; when that makes the count reach `TotalThreads` and the
        executor has not fired, every member's result is copied into `Results` under its name,
        and an async group is queued to run its callback, at most once. A missing group is
        logged. */
    method RunTaskThread(t: TaskRunner, outcome: Outcome)
      requires Valid() && RunTask(t) in pending
      modifies this, t, GroupOf(t)
      ensures Valid()
      ensures t.State() == AfterBody(t.body, old(t.State()), outcome).(isComplete := true)
      ensures t.positionInGroup == old(t.positionInGroup)
      ensures taskRunners == old(taskRunners) && groups == old(groups) && Repr == old(Repr)
      ensures t.groupName == None ==>
                log == old(log) + [BodyRan(t, WorkerThread)] && credited == old(credited) &&
                pending == old(pending) - multiset{RunTask(t)}
      ensures t.groupName.Some? && t.groupName.value !in groups ==>
                log == old(log) + [BodyRan(t, WorkerThread), GroupNotFound(t.groupName.value)] &&
                credited == old(credited) && pending == old(pending) - multiset{RunTask(t)}
      ensures t.groupName.Some? && t.groupName.value in groups ==>
                var g := groups[t.groupName.value];
                var barrier := old(g.numberOfThreadsComplete) + 1 == g.totalThreads && !old(g.hasFiredExecutor);
                && log == old(log) + [BodyRan(t, WorkerThread)]
                && g.numberOfThreadsComplete == old(g.numberOfThreadsComplete) + 1
                && credited == old(credited)[g := old(credited[g]) + {t}]
                && g.taskRunners == old(g.taskRunners)
                && g.results == (if barrier then Assemble(map[], Entries(g.taskRunners)) else old(g.results))
                && g.hasFiredExecutor == (old(g.hasFiredExecutor) || (barrier && g.isAsync))
                && pending == old(pending) - multiset{RunTask(t)} +
                              if barrier && g.isAsync then multiset{RunGroup(g)} else multiset{}
    {
      FinishTask(t, outcome);
      if t.groupName.Some? {
        var name := t.groupName.value;
        if name !in groups {
          label BeforeLog:
          log := log + [GroupNotFound(name)];
          LogKeepsValid@BeforeLog();
        } else {
          CompleteInGroup(groups[name], t);
        }
      }
    }

    /** The group part of the worker step, for a record whose group is registered. */
    method CompleteInGroup(group: TaskGroup, t: TaskRunner)
      requires Valid() && group.name in groups && groups[group.name] == group
      requires t in Repr && t.isComplete && t !in credited[group]
      modifies this`credited, this`pending, group
      ensures Valid()
      ensures var barrier := old(group.numberOfThreadsComplete) + 1 == group.totalThreads && !old(group.hasFiredExecutor);
              && group.numberOfThreadsComplete == old(group.numberOfThreadsComplete) + 1
              && credited == old(credited)[group := old(credited[group]) + {t}]
              && group.taskRunners == old(group.taskRunners)
              && group.results == (if barrier then Assemble(map[], Entries(group.taskRunners)) else old(group.results))
              && group.hasFiredExecutor == (old(group.hasFiredExecutor) || (barrier && group.isAsync))
              && pending == old(pending) + if barrier && group.isAsync then multiset{RunGroup(group)} else multiset{}
    {
      CountCompletion(group, t);
      if group.AllThreadsComplete() && !group.hasFiredExecutor {
        CopyResults(group);
        if group.isAsync {
          FireExecutor(group);
        }
      }
    }

    /** The body has run on the worker and the record is complete. */
    method FinishTask(t: TaskRunner, outcome: Outcome)
      requires Valid() && RunTask(t) in pending
      modifies this`log, this`pending, t
      ensures Valid()
      ensures t.State() == AfterBody(t.body, old(t.State()), outcome).(isComplete := true)
      ensures log == old(log) + [BodyRan(t, WorkerThread)]
      ensures pending == old(pending) - multiset{RunTask(t)}
      ensures t.positionInGroup == old(t.positionInGroup)
      ensures t in Repr
      ensures t.groupName.Some? && t.groupName.value in groups ==> t !in credited[groups[t.groupName.value]]
    {
      log := log + [BodyRan(t, WorkerThread)];
      pending := pending - multiset{RunTask(t)};
      var result, exception := t.result, t.exception;
      match outcome {
        case Ok(v) =>
          if t.ReturnsResult() {
            result := v;
          }
        case Err(e) =>
          exception := Some(e);
      }
      t.result, t.exception, t.isComplete := result, exception, true;
      FinishKeepsValid(t);
    }

    /** `TaskGroup.Complete`: one more completed record counted. */
    method CountCompletion(group: TaskGroup, t: TaskRunner)
      requires Valid() && group in groups.Values && t in Repr && t.isComplete && t !in credited[group]
      modifies this`credited, group`numberOfThreadsComplete
      ensures Valid()
      ensures group.numberOfThreadsComplete == old(group.numberOfThreadsComplete) + 1
      ensures credited == old(credited)[group := old(credited[group]) + {t}]
    {
      group.Complete(t);
      credited := credited[group := credited[group] + {t}];
      GroupKeepsValid(group);
    }

    /** `Results[member.Name] = member.Result` for every member, in list order. */
    method CopyResults(group: TaskGroup)
      requires Valid() && group in groups.Values && group.AllThreadsComplete()
      modifies group`results
      ensures Valid()
      ensures group.results == Assemble(old(group.results), Entries(group.taskRunners))
    {
      ghost var entries := Entries(group.taskRunners);
      var i := 0;
      while i < |group.taskRunners|
        invariant 0 <= i <= |group.taskRunners|
        invariant Assemble(group.results, entries[i..]) == Assemble(old(group.results), entries)
      {
        var member := group.taskRunners[i];
        assert entries[i..][1..] == entries[i + 1..];
        group.results := group.results[member.name.value := member.result];
        i := i + 1;
      }
      GroupKeepsValid(group);
    }

    /** An async group at its barrier is queued to run its callback, and marked as fired. */
    method FireExecutor(group: TaskGroup)
      requires Valid() && group in groups.Values && group.isAsync && !group.hasFiredExecutor
      modifies this`pending, group`hasFiredExecutor
      ensures Valid()
      ensures pending == old(pending) + multiset{RunGroup(group)} && group.hasFiredExecutor
    {
      pending := pending + multiset{RunGroup(group)};
      group.hasFiredExecutor := true;
      GroupKeepsValid(group);
    }

    /** A worker runs a queued group executor: the group's callback is invoked with its
        `Results` (a throw, or a null callback, is caught and logged), and then whatever group is
        registered under the group's name is removed. */
    method RunGroupThread(g: TaskGroup, throws: bool)
      requires Valid() && RunGroup(g) in pending
      modifies this`log, this`pending, this`groups
      ensures Valid()
      ensures log == old(log) + InvokeGroupCallback(g, g.results, throws, WorkerThread)
      ensures groups == old(groups) - {g.name}
      ensures pending == old(pending) - multiset{RunGroup(g)}
    {
      log := log + InvokeGroupCallback(g, g.results, throws, WorkerThread);
      groups := groups - {g.name};
      pending := pending - multiset{RunGroup(g)};
      ShrinkKeepsValid();
    }

    /** `Update`, the drain the engine runs once per frame on the main thread. `outcomes[k]` is
        what the body of the `k`-th record produces should the drain run it, `throws[k]` whether a
        callback the drain invokes for it throws; `order` is the dictionary's enumeration order
        and `groupThrows` says which group callbacks throw. An exception that escapes the task
        scan ends the drain: nothing is removed and the groups are not scanned. Otherwise the
        marked records are removed, and then every group at its barrier, after the callback of a
        non-async one has been invoked. */
    method Update(outcomes: seq<Outcome>, throws: seq<bool>, order: seq<string>, groupThrows: seq<bool>)
      requires Valid() && |outcomes| == |taskRunners| && |throws| == |taskRunners|
      requires IsEnumeration(order, groups) && |groupThrows| == |order|
      modifies this`log, this`taskRunners, this`groups, taskRunners
      ensures Valid()
      ensures var scan := ScanTasks(old(taskRunners), old(States(taskRunners)), outcomes, throws, |old(taskRunners)|);
              && States(old(taskRunners)) == scan.states
              && (scan.aborted ==>
                    taskRunners == old(taskRunners) && groups == old(groups) && log == old(log) + scan.events)
              && (!scan.aborted ==>
                    && taskRunners == Kept(old(taskRunners), scan.marks)
                    && groups == Unfinished(old(groups))
                    && log == old(log) + scan.events +
                              ScanGroups(Snapshot(old(groups), order), groupThrows, |order|).events)
      ensures forall k :: 0 <= k < |old(taskRunners)| ==>
                old(taskRunners)[k].positionInGroup == old(taskRunners[k].positionInGroup)
    {
      var marks, aborted := DrainTaskRunners(outcomes, throws);
      if !aborted {
        Sweep(marks, order, groupThrows);
      }
    }

    /** What follows a scan that nothing escaped: the removal of the marked records, then the
        group scan and the removal of every group at its barrier. */
    method Sweep(marks: array<bool>, order: seq<string>, groupThrows: seq<bool>)
      requires Valid() && marks.Length == |taskRunners|
      requires IsEnumeration(order, groups) && |groupThrows| == |order|
      modifies this`log, this`taskRunners, this`groups
      ensures Valid()
      ensures taskRunners == Kept(old(taskRunners), marks[..])
      ensures groups == Unfinished(old(groups))
      ensures log == old(log) + ScanGroups(Snapshot(old(groups), order), groupThrows, |order|).events
    {
      RemoveDrained(marks);
      DrainGroups(order, groupThrows);
    }

    /** The first phase of the drain: the task scan, after which the registry is still valid. */
    method DrainTaskRunners(outcomes: seq<Outcome>, throws: seq<bool>) returns (marks: array<bool>, aborted: bool)
      requires Valid() && |outcomes| == |taskRunners| && |throws| == |taskRunners|
      modifies this`log, taskRunners
      ensures Valid() && fresh(marks)
      ensures var scan := ScanTasks(taskRunners, old(States(taskRunners)), outcomes, throws, |taskRunners|);
              && States(taskRunners) == scan.states && marks[..] == scan.marks
              && aborted == scan.aborted && log == old(log) + scan.events
      ensures forall k :: 0 <= k < |taskRunners| ==> taskRunners[k].positionInGroup == old(taskRunners[k].positionInGroup)
    {
      ghost var ss := States(taskRunners);
      ghost var scan;
      marks, aborted, scan := ScanTaskRunners(ss, outcomes, throws);
      ScanTasksKeepsCompletion(taskRunners, ss, outcomes, throws);
      CompletionFollows(ss);
      DrainKeepsValid();
    }

    /** The second phase: the records the scan marked are removed. */
    method RemoveDrained(marks: array<bool>)
      requires Valid() && marks.Length == |taskRunners|
      modifies this`taskRunners
      ensures Valid() && taskRunners == Kept(old(taskRunners), marks[..])
    {
      RemoveMarkedTasks(marks);
      KeptSubsequence(old(taskRunners), marks[..]);
      ShrinkKeepsValid();
    }

    /** The third phase: the group scan over a snapshot of the dictionary's values, in the
        enumeration order `order`, and then the removal of every group at its barrier. */
    method DrainGroups(order: seq<string>, groupThrows: seq<bool>)
      requires Valid() && IsEnumeration(order, groups) && |groupThrows| == |order|
      modifies this`log, this`groups
      ensures Valid()
      ensures groups == Unfinished(old(groups))
      ensures log == old(log) + ScanGroups(Snapshot(old(groups), order), groupThrows, |order|).events
    {
      var groupList := Snapshot(groups, order);
      var groupMarks := ScanSnapshot(groupList, groupThrows);
      RemoveFinishedGroups(order, groupList, groupMarks);
    }

    /** The removal of every group of the snapshot `gs` that the group scan found at its
        barrier. */
    method RemoveFinishedGroups(order: seq<string>, gs: seq<TaskGroup>, marks: array<bool>)
      requires Valid() && IsEnumeration(order, groups) && gs == Snapshot(groups, order)
      requires marks.Length == |gs| && forall k :: 0 <= k < |gs| ==> (marks[k] <==> gs[k].AllThreadsComplete())
      modifies this`groups
      ensures Valid() && groups == Unfinished(old(groups))
    {
      RemoveMarkedGroups(gs, marks);
      ShrinkKeepsValid();
      RemovingCompleteLeavesUnfinished(old(groups), order, marks[..]);
    }

    /** The task scan of the drain: every registered record in list order, until an exception
        escapes. Threaded records keep their completion, and no record loses it. */
    method ScanTaskRunners(ghost ss: seq<TaskState>, outcomes: seq<Outcome>, throws: seq<bool>)
      returns (marks: array<bool>, aborted: bool, ghost r: TaskScan)
      requires ss == States(taskRunners)
      requires |outcomes| == |taskRunners| && |throws| == |taskRunners|
      requires forall i, j :: 0 <= i < j < |taskRunners| ==> taskRunners[i] != taskRunners[j]
      modifies this`log, taskRunners
      ensures fresh(marks) && r == ScanTasks(taskRunners, ss, outcomes, throws, |taskRunners|)
      ensures States(taskRunners) == r.states && marks[..] == r.marks
      ensures aborted == r.aborted && log == old(log) + r.events
      ensures forall k :: 0 <= k < |taskRunners| ==> taskRunners[k].positionInGroup == old(taskRunners[k].positionInGroup)
    {
      marks := NewMarks(|taskRunners|);
      ghost var scanned;
      aborted, scanned, r := ScanFrom(ss, outcomes, throws, marks);
      if aborted {
        ScanTasksStaysAborted(taskRunners, ss, outcomes, throws, scanned, |taskRunners|);
      }
    }

    /** The loop of the task scan, over marks that are all clear: it stops at the end of the
        list or after the record that aborts the drain, so that `scanned` records have been
        visited. */
    method ScanFrom(ghost ss: seq<TaskState>, outcomes: seq<Outcome>, throws: seq<bool>, marks: array<bool>)
      returns (aborted: bool, ghost scanned: nat, ghost r: TaskScan)
      requires ss == States(taskRunners) && marks[..] == seq(|taskRunners|, _ => false)
      requires |outcomes| == |taskRunners| && |throws| == |taskRunners|
      requires forall i, j :: 0 <= i < j < |taskRunners| ==> taskRunners[i] != taskRunners[j]
      modifies this`log, taskRunners, marks
      ensures scanned <= |taskRunners| && (aborted || scanned == |taskRunners|)
      ensures r == ScanTasks(taskRunners, ss, outcomes, throws, scanned)
      ensures States(taskRunners) == r.states && marks[..] == r.marks
      ensures aborted == r.aborted && log == old(log) + r.events
      ensures forall k :: 0 <= k < |taskRunners| ==> taskRunners[k].positionInGroup == old(taskRunners[k].positionInGroup)
    {
      ghost var ts := taskRunners;
      var n := |taskRunners|;
      r := ScanTasks(ts, ss, outcomes, throws, 0);
      aborted := false;
      var i := 0;
      while i < n && !aborted
        invariant 0 <= i <= n == |ts| && taskRunners == ts
        invariant r == ScanTasks(ts, ss, outcomes, throws, i)
        invariant States(ts) == r.states
        invariant marks[..] == r.marks && aborted == r.aborted && log == old(log) + r.events
        invariant forall k :: 0 <= k < |ts| ==> ts[k].positionInGroup == old(ts[k].positionInGroup)
      {
        aborted, r := DrainAt(ts, ss, outcomes, throws, old(log), i, marks, r);
        StatesAre(ts, r.states);
        i := i + 1;
      }
      scanned := i;
    }

    /** A fresh array of `n` marks, none set: `new bool[n]`. */
    method NewMarks(n: nat) returns (marks: array<bool>)
      ensures fresh(marks) && marks[..] == seq(n, _ => false)
    {
      marks := new bool[n](_ => false);
    }

    /** Iteration `i` of the task scan: the records, marks and log move from `r`, the scan of
        the first `i` records, to `r'`, the scan of the first `i + 1`. */
    method DrainAt(ghost ts: seq<TaskRunner>, ghost ss: seq<TaskState>, outcomes: seq<Outcome>, throws: seq<bool>,
                   ghost log0: seq<Event>, i: nat, marks: array<bool>, ghost r: TaskScan)
      returns (stop: bool, ghost r': TaskScan)
      requires i < |ts| == |ss| == |outcomes| == |throws| == marks.Length && taskRunners == ts
      requires forall j, k :: 0 <= j < k < |ts| ==> ts[j] != ts[k]
      requires r == ScanTasks(ts, ss, outcomes, throws, i) && !r.aborted
      requires forall k :: 0 <= k < |ts| ==> ts[k].State() == r.states[k]
      requires marks[..] == r.marks && log == log0 + r.events
      modifies this`log, ts[i], marks
      ensures r' == ScanTasks(ts, ss, outcomes, throws, i + 1)
      ensures forall k :: 0 <= k < |ts| ==> ts[k].State() == r'.states[k]
      ensures marks[..] == r'.marks && stop == r'.aborted && log == log0 + r'.events
      ensures forall k :: 0 <= k < |ts| ==> ts[k].positionInGroup == old(ts[k].positionInGroup)
    {
      ghost var step := DrainTask(ts[i], ss[i], outcomes[i], throws[i]);
      ScanTasksUntouched(ts, ss, outcomes, throws, i);
      r' := TaskScan(r.states[i := step.state], r.events + step.events, r.marks[i := step.marked], step.aborted);
      assert r' == ScanTasks(ts, ss, outcomes, throws, i + 1);
      var marked;
      marked, stop := DrainOne(taskRunners[i], outcomes[i], throws[i]);
      marks[i] := marked;
    }

    /** One iteration of the task scan, on record `t`. */
    method DrainOne(t: TaskRunner, outcome: Outcome, throws: bool) returns (marked: bool, aborted: bool)
      modifies this`log, t
      ensures var step := DrainTask(t, old(t.State()), outcome, throws);
              && t.State() == step.state && log == old(log) + step.events
              && marked == step.marked && aborted == step.aborted
      ensures t.positionInGroup == old(t.positionInGroup)
    {
      marked, aborted := false, false;
      if !t.isComplete && t.isThreaded {
        return;
      }
      if !t.isThreaded {
        log := log + [BodyRan(t, MainThread)];
        match outcome {
          case Ok(v) =>
            if t.ReturnsResult() {
              t.result := v;
            }
          case Err(e) =>
            t.exception := Some(e);
            if t.hasOnError {
              log := log + [Invoked(OnError(t, e), MainThread)];
              if throws {
                log := log + [UpdateFailed(OnError(t, e))];
                aborted := true;
                return;
              }
            }
        }
        t.isComplete := true;
        marked := true;
        return;
      }
      if !t.ReturnsResult() {
        marked := true;
        return;
      }
      var callback: Option<Callback> := None;
      if t.exception == None {
        if t.hasOnComplete {
          callback := Some(OnComplete(t, t.result));
        }
      } else if t.hasOnError {
        callback := Some(OnError(t, t.exception.value));
      }
      if callback.Some? {
        log := log + [Invoked(callback.value, MainThread)];
        if throws {
          if !Formats(CallbackFailureReport(t.name)) {
            log := log + [UpdateFailed(callback.value)];
            aborted := true;
            return;
          }
          log := log + [CallbackFailed(callback.value)];
        }
      }
      marked := true;
    }

    /** Removes the marked records, from the last index down. Records appended after the marks
        were taken are beyond the marks and stay. */
    method RemoveMarkedTasks(marks: array<bool>)
      requires marks.Length <= |taskRunners|
      modifies this`taskRunners
      ensures taskRunners == Kept(old(taskRunners), marks[..])
    {
      ghost var s := taskRunners;
      ghost var m := marks[..];
      var i := marks.Length;
      KeptFromUnmarked(s, m, i);
      assert s[..i] + s[i..] == s;
      while i > 0
        invariant 0 <= i <= |m| && m == marks[..]
        invariant taskRunners == s[..i] + KeptFrom(s, m, i)
      {
        i := i - 1;
        RemoveStep(s, m, i, taskRunners);
        if marks[i] {
          taskRunners := taskRunners[..i] + taskRunners[i + 1..];
        }
      }
      assert s[..0] == [];
    }

    /** The group scan of the drain over the snapshot `gs`, after which the registry is still
        valid. */
    method ScanSnapshot(gs: seq<TaskGroup>, throws: seq<bool>) returns (marks: array<bool>)
      requires Valid() && |throws| == |gs|
      modifies this`log
      ensures Valid() && fresh(marks) && marks.Length == |gs|
      ensures forall k :: 0 <= k < |gs| ==> (marks[k] <==> gs[k].AllThreadsComplete())
      ensures log == old(log) + ScanGroups(gs, throws, |gs|).events
    {
      marks := ScanGroupList(gs, throws);
      LogKeepsValid();
    }

    /** The group scan of the drain over the snapshot `gs`. */
    method ScanGroupList(gs: seq<TaskGroup>, throws: seq<bool>) returns (marks: array<bool>)
      requires |throws| == |gs|
      modifies this`log
      ensures fresh(marks)
      ensures marks[..] == ScanGroups(gs, throws, |gs|).marks
      ensures log == old(log) + ScanGroups(gs, throws, |gs|).events
    {
      marks := new bool[|gs|](_ => false);
      var i := 0;
      while i < |gs|
        invariant 0 <= i <= |gs|
        invariant marks[..] == ScanGroups(gs, throws, i).marks
        invariant log == old(log) + ScanGroups(gs, throws, i).events
      {
        DrainGroupAt(gs, throws, i, marks, old(log));
        i := i + 1;
      }
    }

    /** Iteration `i` of the group scan: the marks and the log move from the scan of the first
        `i` groups to the scan of the first `i + 1`. */
    method DrainGroupAt(gs: seq<TaskGroup>, throws: seq<bool>, i: nat, marks: array<bool>, ghost log0: seq<Event>)
      requires i < |gs| == |throws| == marks.Length
      requires marks[..] == ScanGroups(gs, throws, i).marks
      requires log == log0 + ScanGroups(gs, throws, i).events
      modifies this`log, marks
      ensures marks[..] == ScanGroups(gs, throws, i + 1).marks
      ensures log == log0 + ScanGroups(gs, throws, i + 1).events
    {
      ghost var done := ScanGroups(gs, throws, i);
      var marked := DrainOneGroup(gs[i], throws[i]);
      marks[i] := marked;
      ghost var step := DrainGroup(gs[i], throws[i]);
      assert ScanGroups(gs, throws, i) == done;
      assert ScanGroups(gs, throws, i + 1) == GroupScan(done.events + step.events, done.marks[i := step.marked]);
      assert log0 + done.events + step.events == log0 + (done.events + step.events);
    }

    /** One iteration of the group scan, on group `g`. */
    method DrainOneGroup(g: TaskGroup, throws: bool) returns (marked: bool)
      modifies this`log
      ensures log == old(log) + DrainGroup(g, throws).events && marked == DrainGroup(g, throws).marked
    {
      marked := false;
      if g.AllThreadsComplete() {
        if !g.isAsync {
          log := log + InvokeGroupCallback(g, g.results, throws, MainThread);
        }
        marked := true;
      }
    }

    /** Removes the marked groups of the snapshot by name, from the last index down. */
    method RemoveMarkedGroups(gs: seq<TaskGroup>, marks: array<bool>)
      requires marks.Length == |gs|
      modifies this`groups
      ensures groups == old(groups) - MarkedNames(gs, marks[..], 0)
    {
      var i := marks.Length;
      while i > 0
        invariant 0 <= i <= marks.Length
        invariant groups == old(groups) - MarkedNames(gs, marks[..], i)
      {
        i := i - 1;
        assert MarkedNames(gs, marks[..], i) ==
               MarkedNames(gs, marks[..], i + 1) + if marks[i] then {gs[i].name} else {};
        if marks[i] {
          groups := groups - {gs[i].name};
        }
      }
    }

    /** `Add` keeps the registry valid. */
    twostate lemma AddKeepsValid(t: TaskRunner)
      requires old(Valid()) && t !in old(Repr) && t.groupName == None
      requires Repr == old(Repr) + {t} && taskRunners == old(taskRunners) + [t]
      requires groups == old(groups) && credited == old(credited)
      requires pending == old(pending) + if t.isThreaded then multiset{RunTask(t)} else multiset{}
      requires t.isThreaded ==> !t.isComplete
      requires forall o :: o in old(Repr) && o != this ==> unchanged(o)
      ensures Valid()
    {
      assert PendingValid() by {
        forall j | j in pending ensures pending[j] == 1 && JobValid(j) {
          if j != RunTask(t) {
            assert old(pending)[j] == 1 && old(JobValid(j));
          } else {
            assert !old(JobValid(j));
          }
        }
      }
      assert MembersPlaced() by {
        forall n, i | n in groups && groups[n] in Repr && 0 <= i < |groups[n].taskRunners|
          ensures groups[n].taskRunners[i].positionInGroup == i
        {
          assert unchanged(groups[n]);
          assert unchanged(groups[n].taskRunners[i]);
        }
      }
      assert CountersValid() by {
        forall n, u: TaskRunner | n in groups && groups[n] in credited && u in credited[groups[n]]
          ensures u in Repr && u.isComplete
        {
          assert old(u in Repr && u.isComplete);
          assert unchanged(u);
        }
        forall n | n in groups && groups[n] in Repr && groups[n] in credited
          ensures groups[n].numberOfThreadsComplete == |credited[groups[n]]|
          ensures groups[n].numberOfThreadsComplete < groups[n].totalThreads ==> groups[n].results == map[]
          ensures groups[n].hasFiredExecutor ==> groups[n].isAsync
        {
          assert unchanged(groups[n]);
        }
      }
    }

    /** `AddToGroup` keeps the registry valid. */
    twostate lemma JoinKeepsValid(t: TaskRunner)
      requires old(Valid()) && t !in old(Repr)
      requires t.groupName.Some? && t.groupName.value in groups
      requires t.isThreaded && t.body == ResultBody && !t.isComplete && t.name.Some?
      requires Repr == old(Repr) + {t} && groups == old(groups) && taskRunners == old(taskRunners)
      requires credited == old(credited) && pending == old(pending) + multiset{RunTask(t)}
      requires var g := groups[t.groupName.value];
               && t.positionInGroup == |old(g.taskRunners)| && g.taskRunners == old(g.taskRunners) + [t]
               && g.numberOfThreadsComplete == old(g.numberOfThreadsComplete)
               && g.results == old(g.results) && g.hasFiredExecutor == old(g.hasFiredExecutor)
               && forall o :: o in old(Repr) && o != this && o != g ==> unchanged(o)
      ensures Valid()
    {
      var g := groups[t.groupName.value];
      assert PendingValid() by {
        forall j | j in pending ensures pending[j] == 1 && JobValid(j) {
          if j != RunTask(t) {
            assert old(pending)[j] == 1 && old(JobValid(j));
          } else {
            assert !old(JobValid(j));
          }
        }
      }
      assert MembersPlaced() by {
        forall n, i | n in groups && groups[n] in Repr && 0 <= i < |groups[n].taskRunners|
          ensures var m := groups[n].taskRunners[i];
                  m in Repr && m.groupName == Some(n) && m.positionInGroup == i
        {
          if groups[n] != g {
            assert unchanged(groups[n]);
            assert unchanged(groups[n].taskRunners[i]);
          } else if i < |old(g.taskRunners)| {
            assert groups[n].taskRunners[i] == old(g.taskRunners)[i];
            assert unchanged(groups[n].taskRunners[i]);
          }
        }
      }
      assert CountersValid() by {
        forall n, u: TaskRunner | n in groups && groups[n] in credited && u in credited[groups[n]]
          ensures u in Repr && u.isComplete
        {
          assert old(u in Repr && u.isComplete);
          assert unchanged(u);
        }
        forall n | n in groups && groups[n] in Repr && groups[n] in credited
          ensures groups[n].numberOfThreadsComplete == |credited[groups[n]]|
          ensures groups[n].numberOfThreadsComplete < groups[n].totalThreads ==> groups[n].results == map[]
          ensures groups[n].hasFiredExecutor ==> groups[n].isAsync
        {
          if groups[n] != g {
            assert unchanged(groups[n]);
          }
        }
      }
    }

    /** `CreateGroup` keeps the registry valid. */
    twostate lemma CreateKeepsValid(new g: TaskGroup)
      requires old(Valid()) && g !in old(Repr) && g.name !in old(groups)
      requires groups == old(groups)[g.name := g] && Repr == old(Repr) + {g}
      requires credited == old(credited)[g := {}]
      requires taskRunners == old(taskRunners) && pending == old(pending)
      requires g.numberOfThreadsComplete == 0 && g.taskRunners == [] && g.results == map[] && !g.hasFiredExecutor
      requires forall o :: o in old(Repr) && o != this ==> unchanged(o)
      ensures Valid()
    {
      assert PendingValid() by {
        forall j | j in pending ensures pending[j] == 1 && JobValid(j) {
          assert old(pending)[j] == 1 && old(JobValid(j));
        }
      }
      assert MembersPlaced() by {
        forall n, i | n in groups && groups[n] in Repr && 0 <= i < |groups[n].taskRunners|
          ensures groups[n].taskRunners[i].positionInGroup == i
        {
          assert unchanged(groups[n]);
          assert unchanged(groups[n].taskRunners[i]);
        }
      }
      assert CountersValid() by {
        forall n, u: TaskRunner | n in groups && groups[n] in credited && u in credited[groups[n]]
          ensures u in Repr && u.isComplete
        {
          assert groups[n] != g;
          assert old(u in Repr && u.isComplete);
          assert unchanged(u);
        }
        forall n | n in groups && groups[n] in Repr && groups[n] in credited
          ensures groups[n].numberOfThreadsComplete == |credited[groups[n]]|
          ensures groups[n].numberOfThreadsComplete < groups[n].totalThreads ==> groups[n].results == map[]
          ensures groups[n].hasFiredExecutor ==> groups[n].isAsync
        {
          if groups[n] != g {
            assert unchanged(groups[n]);
          }
        }
      }
    }

    /** A worker finishing a record keeps the registry valid. */
    twostate lemma FinishKeepsValid(t: TaskRunner)
      requires old(Valid()) && RunTask(t) in old(pending)
      requires groups == old(groups) && taskRunners == old(taskRunners)
      requires Repr == old(Repr) && credited == old(credited)
      requires pending == old(pending) - multiset{RunTask(t)}
      requires t.isComplete && t.positionInGroup == old(t.positionInGroup)
      requires forall o :: o in old(Repr) && o != t && o != this ==> unchanged(o)
      ensures Valid()
    {
      assert PendingValid() by {
        forall j | j in pending ensures pending[j] == 1 && JobValid(j) {
          assert j != RunTask(t) && old(pending)[j] == 1 && old(JobValid(j));
        }
      }
      assert MembersPlaced() by {
        forall n, i | n in groups && groups[n] in Repr && 0 <= i < |groups[n].taskRunners|
          ensures groups[n].taskRunners[i].positionInGroup == i
        {
          assert unchanged(groups[n]);
        }
      }
      assert CountersValid() by {
        forall n, u: TaskRunner | n in groups && groups[n] in credited && u in credited[groups[n]]
          ensures u in Repr && u.isComplete
        {
          assert old(u in Repr && u.isComplete);
        }
        forall n | n in groups && groups[n] in Repr && groups[n] in credited
          ensures groups[n].numberOfThreadsComplete == |credited[groups[n]]|
          ensures groups[n].numberOfThreadsComplete < groups[n].totalThreads ==> groups[n].results == map[]
          ensures groups[n].hasFiredExecutor ==> groups[n].isAsync
        {
          assert unchanged(groups[n]);
        }
      }
    }

    /** Changing one live group's counter, results or executor flag keeps the registry valid
        when the group's own counter and flag stay consistent. */
    twostate lemma GroupKeepsValid(g: TaskGroup)
      requires old(Valid()) && g in old(groups).Values
      requires groups == old(groups) && taskRunners == old(taskRunners) && Repr == old(Repr)
      requires credited.Keys == old(credited).Keys
      requires forall h :: h in credited && h != g ==> credited[h] == old(credited[h])
      requires forall o :: o in old(Repr) && o != this && o != g ==> unchanged(o)
      requires g.taskRunners == old(g.taskRunners)
      requires g in credited && g.numberOfThreadsComplete == |credited[g]|
      requires g.numberOfThreadsComplete < g.totalThreads ==> g.results == map[]
      requires g.hasFiredExecutor ==> g.isAsync
      requires forall u: TaskRunner :: u in credited[g] ==> u in Repr && u.isComplete
      requires old(g.hasFiredExecutor) ==> g.hasFiredExecutor
      requires pending == old(pending) ||
               (pending == old(pending) + multiset{RunGroup(g)} && !old(g.hasFiredExecutor) && g.hasFiredExecutor)
      ensures Valid()
    {
      assert PendingValid() by {
        forall j | j in pending ensures pending[j] == 1 && JobValid(j) {
          if j != RunGroup(g) {
            assert old(pending)[j] == 1 && old(JobValid(j));
          } else if pending != old(pending) {
            assert !old(JobValid(j));
          } else {
            assert old(JobValid(j));
          }
        }
      }
      assert MembersPlaced() by {
        forall n, i | n in groups && groups[n] in Repr && 0 <= i < |groups[n].taskRunners|
          ensures groups[n].taskRunners[i].positionInGroup == i
        {
          assert unchanged(groups[n].taskRunners[i]);
        }
      }
      assert CountersValid() by {
        forall n, u: TaskRunner | n in groups && groups[n] in credited && u in credited[groups[n]]
          ensures u in Repr && u.isComplete
        {
          if groups[n] != g {
            assert old(u in Repr && u.isComplete);
            assert unchanged(u);
          }
        }
        forall n | n in groups && groups[n] in Repr && groups[n] in credited
          ensures groups[n].numberOfThreadsComplete == |credited[groups[n]]|
          ensures groups[n].numberOfThreadsComplete < groups[n].totalThreads ==> groups[n].results == map[]
          ensures groups[n].hasFiredExecutor ==> groups[n].isAsync
        {
          if groups[n] != g {
            assert unchanged(groups[n]);
          }
        }
      }
    }

    /** What the states before and after a step say about the records' completion flags. */
    twostate lemma CompletionFollows(ss: seq<TaskState>)
      requires ss == old(States(taskRunners)) && taskRunners == old(taskRunners)
      requires forall k :: 0 <= k < |taskRunners| ==>
                 && (taskRunners[k].isThreaded ==> States(taskRunners)[k] == ss[k])
                 && (ss[k].isComplete ==> States(taskRunners)[k].isComplete)
      ensures forall k :: 0 <= k < |taskRunners| ==>
                && (taskRunners[k].isThreaded ==> taskRunners[k].isComplete == old(taskRunners[k].isComplete))
                && (old(taskRunners[k].isComplete) ==> taskRunners[k].isComplete)
    {
      forall k | 0 <= k < |taskRunners|
        ensures taskRunners[k].isThreaded ==> taskRunners[k].isComplete == old(taskRunners[k].isComplete)
        ensures old(taskRunners[k].isComplete) ==> taskRunners[k].isComplete
      {
        assert ss[k] == old(taskRunners[k].State());
        assert States(taskRunners)[k] == taskRunners[k].State();
      }
    }

    /** The task scan keeps the registry valid: it never clears `IsComplete` and leaves threaded
        records' completion alone, and it writes only registered records, which are in no
        group. */
    twostate lemma DrainKeepsValid()
      requires old(Valid())
      requires groups == old(groups) && taskRunners == old(taskRunners) && pending == old(pending)
      requires Repr == old(Repr) && credited == old(credited)
      requires forall o :: o in Repr && o !in taskRunners ==> unchanged(o)
      requires forall k :: 0 <= k < |taskRunners| ==>
                 && (taskRunners[k].isThreaded ==> taskRunners[k].isComplete == old(taskRunners[k].isComplete))
                 && (old(taskRunners[k].isComplete) ==> taskRunners[k].isComplete)
      ensures Valid()
    {
      assert PendingValid() by {
        forall j | j in pending ensures pending[j] == 1 && JobValid(j) {
          assert old(pending)[j] == 1 && old(JobValid(j));
          if j.RunTask? && j.task in taskRunners {
            var k :| 0 <= k < |taskRunners| && taskRunners[k] == j.task;
          }
        }
      }
      assert MembersPlaced() by {
        forall n, i | n in groups && groups[n] in Repr && 0 <= i < |groups[n].taskRunners|
          ensures groups[n].taskRunners[i].positionInGroup == i
        {
          var m := old(groups[n].taskRunners[i]);
          assert m.groupName == Some(n);
          assert m !in taskRunners;
        }
      }
      assert CountersValid() by {
        forall n, u: TaskRunner | n in groups && groups[n] in credited && u in credited[groups[n]]
          ensures u in Repr && u.isComplete
        {
          assert old(u in Repr && u.isComplete);
          if u in taskRunners {
            var k :| 0 <= k < |taskRunners| && taskRunners[k] == u;
          }
        }
      }
    }

    /** Removing records or groups, and consuming queued work, keeps the registry valid. */
    twostate lemma ShrinkKeepsValid()
      requires old(Valid())
      requires Repr == old(Repr) && credited == old(credited) && pending <= old(pending)
      requires forall n :: n in groups ==> n in old(groups) && groups[n] == old(groups[n])
      requires forall i :: 0 <= i < |taskRunners| ==> taskRunners[i] in old(taskRunners)
      requires forall i, j :: 0 <= i < j < |taskRunners| ==> taskRunners[i] != taskRunners[j]
      requires forall o :: o in Repr ==> unchanged(o)
      ensures Valid()
    {
      assert PendingValid() by {
        forall j | j in pending ensures pending[j] == 1 && JobValid(j) {
          assert old(pending)[j] == 1 && old(JobValid(j));
        }
      }
      assert TasksValid() by {
        forall i | 0 <= i < |taskRunners| ensures taskRunners[i] in Repr && taskRunners[i].groupName == None {
          var k :| 0 <= k < |old(taskRunners)| && old(taskRunners)[k] == taskRunners[i];
        }
      }
      assert MembersPlaced() by {
        forall n, i | n in groups && groups[n] in Repr && 0 <= i < |groups[n].taskRunners|
          ensures groups[n].taskRunners[i].positionInGroup == i
        {
          assert unchanged(groups[n]);
          assert unchanged(groups[n].taskRunners[i]);
        }
      }
      assert CountersValid() by {
        forall n, u: TaskRunner | n in groups && groups[n] in credited && u in credited[groups[n]]
          ensures u in Repr && u.isComplete
        {
          assert old(u in Repr && u.isComplete);
          assert unchanged(u);
        }
        forall n | n in groups && groups[n] in Repr && groups[n] in credited
          ensures groups[n].numberOfThreadsComplete == |credited[groups[n]]|
          ensures groups[n].numberOfThreadsComplete < groups[n].totalThreads ==> groups[n].results == map[]
          ensures groups[n].hasFiredExecutor ==> groups[n].isAsync
        {
          assert unchanged(groups[n]);
        }
      }
    }

    /** Appending to the log keeps the registry valid. */
    twostate lemma LogKeepsValid()
      requires old(Valid())
      requires groups == old(groups) && taskRunners == old(taskRunners) && pending == old(pending)
      requires Repr == old(Repr) && credited == old(credited)
      requires forall o :: o in Repr ==> unchanged(o)
      ensures Valid()
    {
    }
  }
}
