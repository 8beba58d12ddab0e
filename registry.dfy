/**
 * The task registry (src/latch/orchestration/registry.py): the registered
 * tasks and their metadata, the execution-plan graph, the execution history
 * and the set of active tasks.
 *
 * A history entry is one of the three event dicts the registry appends. The
 * timestamps `_get_timestamp` reads from the wall clock are the readings of
 * the registry's `clock` counter: opaque values, one per call.
 */
module Registry {
  import opened Wrappers
  import opened Strings
  import opened Constraints
  import opened TaskIdentity
  import opened Dag
  import opened ConstraintValidator
  import opened Violation

  type Timestamp = nat

  datatype Event =
    | Started(task: string, timestamp: Timestamp)
    | Completed(task: string, startTime: Option<Timestamp>, endTime: Timestamp)
    | Failed(task: string, error: string, startTime: Option<Timestamp>, endTime: Timestamp)

  predicate IsStartOf(e: Event, name: string)
  {
    e.Started? && e.task == name
  }

  // ---------------------------------------------------------------------------
  // Replacing the start event by a terminal one

  /** The index of the most recent `started` event of `name`, scanning from the end. */
  function LastStart(h: seq<Event>, name: string): (r: Option<nat>)
    ensures r.Some? ==> r.value < |h| && IsStartOf(h[r.value], name)
  {
    if h == [] then None
    else if IsStartOf(h[|h| - 1], name) then Some(|h| - 1)
    else LastStart(h[..|h| - 1], name)
  }

  /** LastStart finds the last start: none follows it, and None means there is none at all. */
  lemma {:induction false} LastStartIsLast(h: seq<Event>, name: string)
    ensures LastStart(h, name).Some? ==> forall j :: LastStart(h, name).value < j < |h| ==> !IsStartOf(h[j], name)
    ensures LastStart(h, name).None? ==> forall j :: 0 <= j < |h| ==> !IsStartOf(h[j], name)
  {
    if h != [] && !IsStartOf(h[|h| - 1], name) {
      var p := h[..|h| - 1];
      LastStartIsLast(p, name);
      assert forall j :: 0 <= j < |p| ==> p[j] == h[j];
    }
  }

  /** The reversed scan of mark_task_completed and mark_task_failed. */
  method FindLastStart(history: seq<Event>, name: string) returns (index: Option<nat>)
    ensures index == LastStart(history, name)
  {
    var i := 0;
    assert history[..|history|] == history;
    while i < |history|
      invariant 0 <= i <= |history|
      invariant LastStart(history, name) == LastStart(history[..|history| - i], name)
    {
      var k := |history| - 1 - i;
      var prefix := history[..k + 1];
      assert prefix[|prefix| - 1] == history[k];
      if IsStartOf(history[k], name) {
        return Some(k);
      }
      assert prefix[..|prefix| - 1] == history[..k];
      i := i + 1;
    }
    assert history[..0] == [];
    return None;
  }

  /** The `start_time` the terminal event records: the removed start's timestamp, if any. */
  function StartTimeOf(h: seq<Event>, name: string): Option<Timestamp>
  {
    match LastStart(h, name)
    case None => None
    case Some(i) => Some(h[i].timestamp)
  }

  /** The history with the most recent start of `name` popped, if there is one. */
  function RemoveLastStart(h: seq<Event>, name: string): seq<Event>
  {
    match LastStart(h, name)
    case None => h
    case Some(i) => h[..i] + h[i + 1..]
  }

  /** The history after mark_task_completed(name) at time `end`. */
  function CompletedHistory(h: seq<Event>, name: string, end: Timestamp): seq<Event>
  {
    RemoveLastStart(h, name) + [Completed(name, StartTimeOf(h, name), end)]
  }

  /** The history after mark_task_failed(name, error) at time `end`; `error` is str(error). */
  function FailedHistory(h: seq<Event>, name: string, error: string, end: Timestamp): seq<Event>
  {
    RemoveLastStart(h, name) + [Failed(name, error, StartTimeOf(h, name), end)]
  }

  /**
   * Popping the start removes exactly one event, a start of `name`: putting
   * it back at its index gives the old history, so every other event keeps
   * its place relative to the rest.
   */
  lemma {:induction false} RemoveLastStartShape(h: seq<Event>, name: string)
    ensures LastStart(h, name).None? ==> RemoveLastStart(h, name) == h
    ensures LastStart(h, name).Some? ==>
              var i := LastStart(h, name).value;
              var r := RemoveLastStart(h, name);
              |r| == |h| - 1 && i <= |r| && IsStartOf(h[i], name) && h == r[..i] + [h[i]] + r[i..]
  {
    if LastStart(h, name).Some? {
      var i := LastStart(h, name).value;
      var r := RemoveLastStart(h, name);
      assert r[..i] == h[..i];
      assert r[i..] == h[i + 1..];
      assert h == h[..i] + [h[i]] + h[i + 1..];
    }
  }

  /** Completing or failing leaves the length as it was when a start was popped, and adds one otherwise. */
  lemma {:induction false} TerminalHistoryLength(h: seq<Event>, name: string, error: string, end: Timestamp)
    ensures |CompletedHistory(h, name, end)| == |FailedHistory(h, name, error, end)| ==
            if LastStart(h, name).Some? then |h| else |h| + 1
  {
    RemoveLastStartShape(h, name);
  }

  /** The events of tasks other than `name`, in history order. */
  function OtherEvents(h: seq<Event>, name: string): seq<Event>
  {
    if h == [] then []
    else OtherEvents(h[..|h| - 1], name) + (if h[|h| - 1].task == name then [] else [h[|h| - 1]])
  }

  lemma {:induction false} OtherEventsAppend(a: seq<Event>, b: seq<Event>, name: string)
    ensures OtherEvents(a + b, name) == OtherEvents(a, name) + OtherEvents(b, name)
  {
    if b != [] {
      var b0 := b[..|b| - 1];
      assert (a + b)[..|a + b| - 1] == a + b0;
      assert (a + b)[|a + b| - 1] == b[|b| - 1];
      OtherEventsAppend(a, b0, name);
    } else {
      assert a + b == a;
    }
  }

  lemma OtherEventsOne(e: Event, name: string)
    ensures OtherEvents([e], name) == if e.task == name then [] else [e]
  {
    assert [e][..0] == [];
  }

  /** Popping a start of `name` leaves the events of every other task as they were. */
  lemma {:induction false} OthersAfterRemove(h: seq<Event>, name: string)
    ensures OtherEvents(RemoveLastStart(h, name), name) == OtherEvents(h, name)
  {
    RemoveLastStartShape(h, name);
    if LastStart(h, name).Some? {
      var i := LastStart(h, name).value;
      var r := RemoveLastStart(h, name);
      var a, e, b := r[..i], h[i], r[i..];
      OtherEventsAppend(a + [e], b, name);
      OtherEventsAppend(a, [e], name);
      OtherEventsOne(e, name);
      OtherEventsAppend(a, b, name);
      assert a + b == r;
    }
  }

  /** Completing or failing `name` leaves the events of every other task exactly as they were. */
  lemma {:induction false} OthersUntouched(h: seq<Event>, name: string, error: string, end: Timestamp)
    ensures OtherEvents(CompletedHistory(h, name, end), name) == OtherEvents(h, name)
    ensures OtherEvents(FailedHistory(h, name, error, end), name) == OtherEvents(h, name)
  {
    var r := RemoveLastStart(h, name);
    OthersAfterRemove(h, name);
    var c := Completed(name, StartTimeOf(h, name), end);
    var f := Failed(name, error, StartTimeOf(h, name), end);
    OtherEventsAppend(r, [c], name);
    OtherEventsOne(c, name);
    OtherEventsAppend(r, [f], name);
    OtherEventsOne(f, name);
  }

  /** The tasks with a `completed` event: the set the scheduler's readiness check builds. */
  function CompletedTasks(h: seq<Event>): set<string>
  {
    set e | e in h && e.Completed? :: e.task
  }

  lemma {:induction false} CompletedTasksAppend(h: seq<Event>, e: Event)
    ensures CompletedTasks(h + [e]) == CompletedTasks(h) + (if e.Completed? then {e.task} else {})
  {
    assert forall x :: x in h + [e] <==> x in h || x == e;
  }

  /** Popping a start does not change which tasks have completed. */
  lemma {:induction false} CompletedTasksAfterRemove(h: seq<Event>, name: string)
    ensures CompletedTasks(RemoveLastStart(h, name)) == CompletedTasks(h)
  {
    RemoveLastStartShape(h, name);
    if LastStart(h, name).Some? {
      var i := LastStart(h, name).value;
      var r := RemoveLastStart(h, name);
      assert forall x :: x in h <==> x in r[..i] || x == h[i] || x in r[i..];
      assert forall x :: x in r <==> x in r[..i] || x in r[i..] by {
        assert r == r[..i] + r[i..];
      }
    }
  }

  /** Completing adds the task to the completed tasks; failing changes nothing there. */
  lemma {:induction false} CompletedTasksGrow(h: seq<Event>, name: string, error: string, end: Timestamp)
    ensures CompletedTasks(CompletedHistory(h, name, end)) == CompletedTasks(h) + {name}
    ensures CompletedTasks(FailedHistory(h, name, error, end)) == CompletedTasks(h)
  {
    CompletedTasksAfterRemove(h, name);
    CompletedTasksAppend(RemoveLastStart(h, name), Completed(name, StartTimeOf(h, name), end));
    CompletedTasksAppend(RemoveLastStart(h, name), Failed(name, error, StartTimeOf(h, name), end));
  }

  /**
   * A start immediately followed by its completion leaves one event in the
   * history: the completion, carrying the start's timestamp.
   */
  lemma {:induction false} StartThenFinish(h: seq<Event>, name: string, error: string, t1: Timestamp, t2: Timestamp)
    ensures CompletedHistory(h + [Started(name, t1)], name, t2) == h + [Completed(name, Some(t1), t2)]
    ensures FailedHistory(h + [Started(name, t1)], name, error, t2) == h + [Failed(name, error, Some(t1), t2)]
  {
    var h1 := h + [Started(name, t1)];
    assert h1[..|h1| - 1] == h;
    assert LastStart(h1, name) == Some(|h|);
    assert h1[..|h|] + h1[|h| + 1..] == h;
  }

  // ---------------------------------------------------------------------------
  // get_calling_task

  predicate CallerCandidate(e: Event, active: set<string>, current: string)
  {
    e.Started? && e.task in active && e.task != current
  }

  /** The index of the latest `started` event of an active task other than `current`. */
  function LatestCallerStart(h: seq<Event>, active: set<string>, current: string): (r: Option<nat>)
    ensures r.Some? ==> r.value < |h| && CallerCandidate(h[r.value], active, current)
  {
    if h == [] then None
    else if CallerCandidate(h[|h| - 1], active, current) then Some(|h| - 1)
    else LatestCallerStart(h[..|h| - 1], active, current)
  }

  /** Nothing after the event found qualifies, and None means no event qualifies. */
  lemma {:induction false} LatestCallerIsLatest(h: seq<Event>, active: set<string>, current: string)
    ensures LatestCallerStart(h, active, current).Some? ==>
              forall j :: LatestCallerStart(h, active, current).value < j < |h| ==> !CallerCandidate(h[j], active, current)
    ensures LatestCallerStart(h, active, current).None? ==>
              forall j :: 0 <= j < |h| ==> !CallerCandidate(h[j], active, current)
  {
    if h != [] && !CallerCandidate(h[|h| - 1], active, current) {
      var p := h[..|h| - 1];
      LatestCallerIsLatest(p, active, current);
      assert forall j :: 0 <= j < |p| ==> p[j] == h[j];
    }
  }

  // ---------------------------------------------------------------------------
  // The status of a node, as _add_metadata_and_status_to_nodes derives it

  const StatusCompleted: string := "completed"
  const StatusFailed: string := "failed"
  const StatusRunning: string := "running"
  const StatusPending: string := "pending"

  /** The last `completed` or `failed` event of `name`. */
  function LastTerminal(h: seq<Event>, name: string): (r: Option<Event>)
    ensures r.Some? ==> !r.value.Started? && r.value.task == name
  {
    if h == [] then None
    else if !h[|h| - 1].Started? && h[|h| - 1].task == name then Some(h[|h| - 1])
    else LastTerminal(h[..|h| - 1], name)
  }

  predicate HasStart(h: seq<Event>, name: string)
  {
    exists e :: e in h && IsStartOf(e, name)
  }

  /**
   * The status a node gets: that of its last terminal event; failing that
   * "running" when it has started and is still active; otherwise "pending".
   */
  function StatusOf(h: seq<Event>, active: set<string>, name: string): string
  {
    var last := LastTerminal(h, name);
    if last.Some? then (if last.value.Completed? then StatusCompleted else StatusFailed)
    else if name in active && HasStart(h, name) then StatusRunning
    else StatusPending
  }

  /** The error attached to a node: only when its last terminal event is a failure. */
  function ErrorOf(h: seq<Event>, name: string): Option<string>
  {
    var last := LastTerminal(h, name);
    if last.Some? && last.value.Failed? then Some(last.value.error) else None
  }

  /** How one more event changes a node's status and error. */
  lemma {:induction false} StatusStep(h: seq<Event>, e: Event, active: set<string>, name: string)
    ensures e.task != name ==>
              StatusOf(h + [e], active, name) == StatusOf(h, active, name) && ErrorOf(h + [e], name) == ErrorOf(h, name)
    ensures e.task == name && e.Completed? ==>
              StatusOf(h + [e], active, name) == StatusCompleted && ErrorOf(h + [e], name) == None
    ensures e.task == name && e.Failed? ==>
              StatusOf(h + [e], active, name) == StatusFailed && ErrorOf(h + [e], name) == Some(e.error)
    ensures e.task == name && e.Started? ==>
              ErrorOf(h + [e], name) == ErrorOf(h, name) &&
              StatusOf(h + [e], active, name) ==
                if StatusOf(h, active, name) != StatusPending then StatusOf(h, active, name)
                else if name in active then StatusRunning else StatusPending
  {
    var h1 := h + [e];
    assert h1[..|h1| - 1] == h;
    assert h1[|h1| - 1] == e;
    assert forall x :: x in h1 <==> x in h || x == e;
    if e.task == name && e.Started? {
      assert IsStartOf(e, name);
    }
  }

  /** Status and error maps that agree with StatusOf and ErrorOf on every name. */
  ghost predicate StatusesMatch(status: map<string, string>, errors: map<string, string>,
                          h: seq<Event>, active: set<string>)
  {
    forall n ::
      (n in status <==> StatusOf(h, active, n) != StatusPending) &&
      (n in status ==> status[n] == StatusOf(h, active, n)) &&
      (n in errors <==> ErrorOf(h, n).Some?) &&
      (n in errors ==> errors[n] == ErrorOf(h, n).value)
  }

  /** The loop over the history that fills `task_status` and `task_errors`. */
  method DeriveStatuses(history: seq<Event>, active: set<string>)
    returns (status: map<string, string>, errors: map<string, string>)
    ensures StatusesMatch(status, errors, history, active)
  {
    status, errors := map[], map[];
    var i := 0;
    while i < |history|
      invariant 0 <= i <= |history|
      invariant StatusesMatch(status, errors, history[..i], active)
    {
      var event := history[i];
      var name := event.task;
      var prefix := history[..i];
      assert history[..i + 1] == prefix + [event];
      forall n {
        StatusStep(prefix, event, active, n);
      }
      if event.Completed? {
        status := status[name := StatusCompleted];
        errors := errors - {name};
      } else if event.Failed? {
        status := status[name := StatusFailed];
        errors := errors[name := event.error];
      } else if name in active {
        if name !in status {
          status := status[name := StatusRunning];
        }
      }
      i := i + 1;
    }
    assert history[..i] == history;
  }

  /** A completed or failed run leaves that status, and for a failure its error, on the task's node. */
  lemma {:induction false} StatusAfterFinish(h: seq<Event>, active: set<string>, name: string, error: string, end: Timestamp)
    ensures StatusOf(CompletedHistory(h, name, end), active, name) == StatusCompleted
    ensures ErrorOf(CompletedHistory(h, name, end), name) == None
    ensures StatusOf(FailedHistory(h, name, error, end), active, name) == StatusFailed
    ensures ErrorOf(FailedHistory(h, name, error, end), name) == Some(error)
  {
    StatusStep(RemoveLastStart(h, name), Completed(name, StartTimeOf(h, name), end), active, name);
    StatusStep(RemoveLastStart(h, name), Failed(name, error, StartTimeOf(h, name), end), active, name);
  }

  /** The fields `node.update` copies from a registered task. */
  datatype TaskFields = TaskFields(hasConstraints: bool, description: Option<string>)

  /**
   * What a node of the snapshot is given: the registered task's fields, then
   * its stored metadata (whose keys win where they overlap), its status, and
   * its error if it has one.
   */
  datatype NodeAnnotation = NodeAnnotation(
    id: string,
    taskFields: Option<TaskFields>,
    metadata: Option<TaskMetadata>,
    status: string,
    error: Option<string>)

  /** The annotation of one node, from the registry's state. */
  function AnnotationOf(tasks: map<string, Task>, metadata: map<string, Option<TaskMetadata>>,
                        h: seq<Event>, active: set<string>, id: string): NodeAnnotation
  {
    NodeAnnotation(
      id,
      if id in tasks then Some(TaskFields(tasks[id].constraints.Some?, tasks[id].description)) else None,
      if id in metadata then metadata[id] else None,
      StatusOf(h, active, id),
      ErrorOf(h, id))
  }

  /**
   * A task registered with its own metadata gets fields that agree with it:
   * the metadata's constraint flag and description are the task's.
   */
  lemma OwnMetadataAgrees(tasks: map<string, Task>, metadata: map<string, Option<TaskMetadata>>,
                          h: seq<Event>, active: set<string>, t: Task)
    requires t.name in tasks && tasks[t.name] == t && t.name in metadata && metadata[t.name] == Some(MetadataOf(t))
    ensures var a := AnnotationOf(tasks, metadata, h, active, t.name);
            a.taskFields.Some? && a.metadata.Some? &&
            a.taskFields.value.hasConstraints == a.metadata.value.hasConstraints &&
            a.taskFields.value.description == a.metadata.value.description &&
            a.metadata.value.uniqueName == a.id
  {
  }

  // ---------------------------------------------------------------------------
  // Display names

  /**
   * _get_display_name: a registered task's metadata base name (its own name
   * when the metadata is empty); for an unregistered name, every `_`-part but
   * the last, joined again; otherwise the name itself.
   */
  function DisplayNameIn(tasks: map<string, Task>, metadata: map<string, Option<TaskMetadata>>, taskName: string): string
  {
    if taskName in tasks then
      (if taskName in metadata && metadata[taskName].Some? then metadata[taskName].value.baseName else taskName)
    else if '_' in taskName then
      var parts := Split(taskName, '_');
      Join('_', parts[..|parts| - 1])
    else taskName
  }

  /** An unregistered name is cut at its last `_`, and shown whole when it has none. */
  lemma {:induction false} DisplayNameCuts(tasks: map<string, Task>, metadata: map<string, Option<TaskMetadata>>,
                                           taskName: string)
    requires taskName !in tasks
    ensures '_' in taskName ==> DisplayNameIn(tasks, metadata, taskName) == taskName[..LastIndexOf(taskName, '_')]
    ensures '_' !in taskName ==> DisplayNameIn(tasks, metadata, taskName) == taskName
  {
    if '_' in taskName {
      DropLastPart(taskName, '_');
    }
  }

  /** So an unregistered unique name shows the base name it was built from. */
  lemma {:induction false} DisplayNameOfUniqueName(tasks: map<string, Task>, metadata: map<string, Option<TaskMetadata>>,
                                                   baseName: string, h: string)
    requires UniqueName(baseName, h) !in tasks && IsInstanceHash(h)
    ensures DisplayNameIn(tasks, metadata, UniqueName(baseName, h)) == baseName
  {
    UniqueNameSplits(baseName, h);
    DisplayNameCuts(tasks, metadata, UniqueName(baseName, h));
  }

  /** A task registered with its own metadata shows its base name; with empty metadata, its full name. */
  lemma DisplayNameOfRegistered(tasks: map<string, Task>, metadata: map<string, Option<TaskMetadata>>, t: Task)
    requires t.name in tasks && t.name in metadata
    ensures metadata[t.name] == Some(MetadataOf(t)) ==> DisplayNameIn(tasks, metadata, t.name) == t.baseName
    ensures metadata[t.name] == None ==> DisplayNameIn(tasks, metadata, t.name) == t.name
  {
  }

  // ---------------------------------------------------------------------------
  // The graph around add_runtime_dependency

  /** The nodes after add_task(caller), and add_task(callee) when the callee is registered. */
  function TouchedNodes(n0: map<string, DAGNode>, tasks: map<string, Task>, callerTask: string, calleeTask: string)
    : map<string, DAGNode>
  {
    var n1 := WithTask(n0, callerTask);
    if calleeTask in tasks then WithTask(n1, calleeTask) else n1
  }

  function TouchedNames(s0: seq<string>, n0: map<string, DAGNode>, tasks: map<string, Task>,
                        callerTask: string, calleeTask: string): seq<string>
  {
    var s1 := AddName(s0, n0, callerTask);
    if calleeTask in tasks then AddName(s1, WithTask(n0, callerTask), calleeTask) else s1
  }

  /**
   * A rejected edge changes no dependency or dependent set: the only change is
   * the caller's node, and the registered callee's, if they were missing.
   */
  lemma {:induction false} RejectionAddsNoEdge(n0: map<string, DAGNode>, tasks: map<string, Task>,
                                               callerTask: string, calleeTask: string)
    requires forall n :: n in n0 ==> n0[n].taskName == n
    ensures var r := TouchedNodes(n0, tasks, callerTask, calleeTask);
            r.Keys == n0.Keys + {callerTask} + (if calleeTask in tasks then {calleeTask} else {}) &&
            (forall n :: DepsOf(r, n) == DepsOf(n0, n) && DependentsOf(r, n) == DependentsOf(n0, n)) &&
            (forall n :: n in r ==> r[n].taskName == n)
  {
    var n1 := WithTask(n0, callerTask);
    WithTaskLookups(n0, callerTask);
    WithTaskLookups(n1, calleeTask);
  }

  /** add_task on the two ends changes no lookup of any node. */
  lemma {:induction false} TouchedLookup(n0: map<string, DAGNode>, tasks: map<string, Task>,
                                         callerTask: string, calleeTask: string, n: string)
    requires forall m :: m in n0 ==> n0[m].taskName == m
    ensures var t := TouchedNodes(n0, tasks, callerTask, calleeTask);
            DepsOf(t, n) == DepsOf(n0, n) && DependentsOf(t, n) == DependentsOf(n0, n)
  {
    WithTaskLookups(n0, callerTask);
    WithTaskLookups(WithTask(n0, callerTask), calleeTask);
  }

  /**
   * A committed edge, looked up at any node n: the callee's dependencies gain
   * the caller, the caller's dependents gain the callee, and every other set
   * is what it was before add_runtime_dependency.
   */
  lemma {:induction false} CommitAddsEdge(s0: seq<string>, n0: map<string, DAGNode>, tasks: map<string, Task>,
                                          callerTask: string, calleeTask: string, s: seq<string>, r: map<string, DAGNode>,
                                          n: string)
    requires forall m :: m in n0 ==> n0[m].taskName == m
    requires DependencyAdded(s0, TouchedNodes(n0, tasks, callerTask, calleeTask), calleeTask, callerTask, s, r)
    ensures DepsOf(r, n) == DepsOf(n0, n) + (if n == calleeTask then {callerTask} else {})
    ensures DependentsOf(r, n) == DependentsOf(n0, n) + (if n == callerTask then {calleeTask} else {})
  {
    var t := TouchedNodes(n0, tasks, callerTask, calleeTask);
    assert EdgeAt(t, calleeTask, callerTask, r);
    assert (n in t || n == calleeTask || n == callerTask) == (n in r);
    EdgeAtLookup(t, calleeTask, callerTask, r, n);
    TouchedLookup(n0, tasks, callerTask, calleeTask, n);
  }

  /** The node-by-node part of DependencyAdded. */
  ghost predicate EdgeAt(n0: map<string, DAGNode>, a: string, b: string, r: map<string, DAGNode>)
  {
    r.Keys == n0.Keys + {a, b} &&
    forall n :: n in r ==>
      r[n] == DAGNode(n, DepsOf(n0, n) + (if n == a then {b} else {}),
                         DependentsOf(n0, n) + (if n == b then {a} else {}))
  }

  lemma {:induction false} EdgeAtLookup(n0: map<string, DAGNode>, a: string, b: string, r: map<string, DAGNode>, n: string)
    requires EdgeAt(n0, a, b, r) && (n in n0 || n == a || n == b) == (n in r)
    ensures DepsOf(r, n) == DepsOf(n0, n) + (if n == a then {b} else {})
    ensures DependentsOf(r, n) == DependentsOf(n0, n) + (if n == b then {a} else {})
  {
  }

  // ---------------------------------------------------------------------------
  // The registry

  class TaskRegistry {
    var tasks: map<string, Task>
    /** The metadata stored with each task; None is the empty dict. */
    var metadata: map<string, Option<TaskMetadata>>
    const plan: TaskDependencyDAG
    var history: seq<Event>
    var active: set<string>
    /** Successive readings of `_get_timestamp`. */
    var clock: Timestamp

    ghost predicate Valid()
      reads this, plan
    {
      plan.Valid() && tasks.Keys == metadata.Keys && tasks.Keys <= plan.nodes.Keys &&
      (forall n :: n in tasks ==> tasks[n].name == n)
    }

    constructor()
      ensures Valid() && fresh(plan)
      ensures tasks == map[] && metadata == map[] && history == [] && active == {}
      ensures plan.names == [] && plan.nodes == map[]
    {
      tasks := map[];
      metadata := map[];
      plan := new TaskDependencyDAG();
      history := [];
      active := {};
      clock := 0;
    }

    /** get_task. */
    function GetTask(name: string): (r: Option<Task>)
      reads this
      ensures r.Some? <==> name in tasks
      ensures r.Some? ==> r.value == tasks[name]
    {
      if name in tasks then Some(tasks[name]) else None
    }

    /** _get_display_name, the callback the violation handler is built with. */
    function DisplayName(taskName: string): string
      reads this
    {
      DisplayNameIn(tasks, metadata, taskName)
    }

    /**
     * register_task: the task and its metadata are stored under its unique
     * name, and its node is added (isolated, at the end of the key order) if
     * it was missing.
     */
    method RegisterTask(task: Task, md: Option<TaskMetadata>)
      requires Valid()
      modifies this, plan
      ensures Valid()
      ensures tasks == old(tasks)[task.name := task] && metadata == old(metadata)[task.name := md]
      ensures plan.names == AddName(old(plan.names), old(plan.nodes), task.name)
      ensures plan.nodes == WithTask(old(plan.nodes), task.name)
      ensures task.name !in old(plan.nodes) ==> plan.nodes[task.name] == EmptyNode(task.name)
      ensures history == old(history) && active == old(active) && clock == old(clock)
    {
      tasks := tasks[task.name := task];
      metadata := metadata[task.name := md];
      var node := plan.AddTask(task.name);
    }

    /**
     * add_runtime_dependency(callerTask, calleeTask, caller): the caller's node,
     * and a registered callee's, are added first; then the edge is validated
     * on the graph as it was. A rejection is reported as the handler's DOT
     * text and re-raised, and adds no edge; an accepted edge is stored as
     * add_dependency(calleeTask, callerTask), so the callee depends on the caller.
     */
    method AddRuntimeDependency(callerTask: string, calleeTask: string, caller: Task)
      returns (outcome: Outcome<ConstraintViolationError>, report: Option<string>)
      requires Valid()
      modifies plan
      ensures Valid()
      ensures outcome == ValidateDependency(old(plan.nodes), tasks, callerTask, calleeTask, caller)
      ensures outcome.Fail? ==>
                plan.names == TouchedNames(old(plan.names), old(plan.nodes), tasks, callerTask, calleeTask) &&
                plan.nodes == TouchedNodes(old(plan.nodes), tasks, callerTask, calleeTask) &&
                report == Some(GenerateGraphviz(callerTask, calleeTask, ErrorText(outcome.error),
                                                DisplayName(callerTask), DisplayName(calleeTask)))
      ensures outcome.Pass? ==>
                report == None &&
                DependencyAdded(TouchedNames(old(plan.names), old(plan.nodes), tasks, callerTask, calleeTask),
                                TouchedNodes(old(plan.nodes), tasks, callerTask, calleeTask),
                                calleeTask, callerTask, plan.names, plan.nodes)
    {
      ValidationIgnoresNewNodes(plan.nodes, callerTask, tasks, callerTask, calleeTask, caller);
      WithTaskLookups(plan.nodes, callerTask);
      ValidationIgnoresNewNodes(WithTask(plan.nodes, callerTask), calleeTask, tasks, callerTask, calleeTask, caller);
      var callerNode := plan.AddTask(callerTask);
      if calleeTask in tasks {
        var calleeNode := plan.AddTask(calleeTask);
      }
      outcome := ValidateDependency(plan.nodes, tasks, callerTask, calleeTask, caller);
      if outcome.Fail? {
        report := Some(GenerateGraphviz(callerTask, calleeTask, ErrorText(outcome.error),
                                        DisplayName(callerTask), DisplayName(calleeTask)));
      } else {
        report := None;
        plan.AddDependency(calleeTask, callerTask);
      }
    }

    /** mark_task_started: the task becomes active and one `started` event is appended. */
    method MarkTaskStarted(taskName: string)
      requires Valid()
      modifies this
      ensures Valid()
      ensures active == old(active) + {taskName}
      ensures history == old(history) + [Started(taskName, old(clock))] && clock == old(clock) + 1
      ensures tasks == old(tasks) && metadata == old(metadata)
    {
      active := active + {taskName};
      history := history + [Started(taskName, clock)];
      clock := clock + 1;
    }

    /**
     * mark_task_completed: the task stops being active, its most recent start
     * is popped, and a `completed` event carrying that start's timestamp is
     * appended.
     */
    method MarkTaskCompleted(taskName: string)
      requires Valid()
      modifies this
      ensures Valid()
      ensures active == old(active) - {taskName}
      ensures history == CompletedHistory(old(history), taskName, old(clock)) && clock == old(clock) + 1
      ensures tasks == old(tasks) && metadata == old(metadata)
    {
      active := active - {taskName};
      var startTime: Option<Timestamp> := None;
      var startIndex := FindLastStart(history, taskName);
      if startIndex.Some? {
        startTime := Some(history[startIndex.value].timestamp);
        history := history[..startIndex.value] + history[startIndex.value + 1..];
      }
      var endTimestamp := clock;
      clock := clock + 1;
      history := history + [Completed(taskName, startTime, endTimestamp)];
    }

    /** mark_task_failed: as mark_task_completed, with a `failed` event carrying str(error). */
    method MarkTaskFailed(taskName: string, error: string)
      requires Valid()
      modifies this
      ensures Valid()
      ensures active == old(active) - {taskName}
      ensures history == FailedHistory(old(history), taskName, error, old(clock)) && clock == old(clock) + 1
      ensures tasks == old(tasks) && metadata == old(metadata)
    {
      active := active - {taskName};
      var startTime: Option<Timestamp> := None;
      var startIndex := FindLastStart(history, taskName);
      if startIndex.Some? {
        startTime := Some(history[startIndex.value].timestamp);
        history := history[..startIndex.value] + history[startIndex.value + 1..];
      }
      var endTimestamp := clock;
      clock := clock + 1;
      history := history + [Failed(taskName, error, startTime, endTimestamp)];
    }

    /**
     * get_calling_task: the task of the latest `started` event whose task is
     * still active and is not `currentTaskName`, looked up in the registry.
     */
    function GetCallingTask(currentTaskName: string): (r: Option<Task>)
      reads this
    {
      match LatestCallerStart(history, active, currentTaskName)
      case None => None
      case Some(i) => GetTask(history[i].task)
    }

    /**
     * _add_metadata_and_status_to_nodes: each node of the snapshot, in order,
     * with the task's fields, its metadata, and the status and error the
     * history gives it.
     */
    method AnnotateNodes(doc: DagJson) returns (annotated: seq<NodeAnnotation>)
      ensures |annotated| == |doc.nodes|
      ensures forall i :: 0 <= i < |doc.nodes| ==>
                annotated[i] == AnnotationOf(tasks, metadata, history, active, doc.nodes[i].id)
    {
      var taskStatus, taskErrors := DeriveStatuses(history, active);
      annotated := [];
      for i := 0 to |doc.nodes|
        invariant |annotated| == i
        invariant forall k :: 0 <= k < i ==>
                    annotated[k] == AnnotationOf(tasks, metadata, history, active, doc.nodes[k].id)
      {
        var taskName := doc.nodes[i].id;
        var fields := if taskName in tasks then
                        Some(TaskFields(tasks[taskName].constraints.Some?, tasks[taskName].description))
                      else None;
        var md := if taskName in metadata then metadata[taskName] else None;
        var status := if taskName in taskStatus then taskStatus[taskName] else StatusPending;
        var error := if taskName in taskErrors then Some(taskErrors[taskName]) else None;
        annotated := annotated + [NodeAnnotation(taskName, fields, md, status, error)];
      }
    }
  }

  /**
   * get_calling_task finds the latest qualifying start: its task is active and
   * not the current one, no later start qualifies, and None means none does.
   */
  lemma {:induction false} CallingTaskIsLatest(r: TaskRegistry, current: string)
    ensures var i := LatestCallerStart(r.history, r.active, current);
            (i.Some? ==> r.history[i.value].Started? && r.history[i.value].task in r.active &&
                         r.history[i.value].task != current &&
                         r.GetCallingTask(current) == r.GetTask(r.history[i.value].task) &&
                         forall j :: i.value < j < |r.history| ==> !CallerCandidate(r.history[j], r.active, current)) &&
            (i.None? ==> r.GetCallingTask(current) == None &&
                         forall j :: 0 <= j < |r.history| ==> !CallerCandidate(r.history[j], r.active, current))
  {
    LatestCallerIsLatest(r.history, r.active, current);
  }
}
