/**
 * The scheduler (src/latch/orchestration/scheduler.py): it runs registered
 * tasks by name, and runs the whole graph round by round, each round running
 * every task whose dependencies have completed.
 */
module Scheduler {
  import opened Wrappers
  import opened Strings
  import opened TaskIdentity
  import opened Dag
  import opened Registry
  import opened TaskInvocation

  /**
   * The readiness test of get_ready_tasks: a node without dependencies is
   * ready; one with dependencies is ready when they have all completed and
   * it has not completed itself.
   */
  predicate IsReady(nodes: map<string, DAGNode>, completed: set<string>, taskName: string)
  {
    DepsOf(nodes, taskName) == {} || (DepsOf(nodes, taskName) <= completed && taskName !in completed)
  }

  /** The ready names, in the order of `names`. */
  function ReadyIn(names: seq<string>, nodes: map<string, DAGNode>, completed: set<string>): (r: seq<string>)
    ensures forall n {:trigger n in r} :: n in r <==> n in names && IsReady(nodes, completed, n)
    ensures Distinct(names) ==> Distinct(r)
  {
    if names == [] then []
    else
      var p := names[..|names| - 1];
      var last := names[|names| - 1];
      assert names == p + [last];
      var rest := ReadyIn(p, nodes, completed);
      if IsReady(nodes, completed, last) then
        assert (rest + [last])[..|rest|] == rest;
        rest + [last]
      else rest
  }

  /** get_ready_tasks: the nodes, in key order, that are ready given the completed tasks in the history. */
  method GetReadyTasks(names: seq<string>, nodes: map<string, DAGNode>, history: seq<Event>)
    returns (readyTasks: seq<string>)
    ensures readyTasks == ReadyIn(names, nodes, CompletedTasks(history))
  {
    readyTasks := [];
    for i := 0 to |names|
      invariant readyTasks == ReadyIn(names[..i], nodes, CompletedTasks(history))
    {
      var taskName := names[i];
      assert names[..i + 1][..i] == names[..i];
      if DepsOf(nodes, taskName) == {} {
        readyTasks := readyTasks + [taskName];
      } else {
        var completedTasks := CompletedTasks(history);
        if DepsOf(nodes, taskName) <= completedTasks && taskName !in completedTasks {
          readyTasks := readyTasks + [taskName];
        }
      }
    }
    assert names[..|names|] == names;
  }

  /** `[task for task in readyTasks if task not in executed]`. */
  function NotExecuted(readyTasks: seq<string>, executed: set<string>): (r: seq<string>)
    ensures forall n {:trigger n in r} :: n in r <==> n in readyTasks && n !in executed
    ensures Distinct(readyTasks) ==> Distinct(r)
  {
    if readyTasks == [] then []
    else
      var p := readyTasks[..|readyTasks| - 1];
      var last := readyTasks[|readyTasks| - 1];
      assert readyTasks == p + [last];
      var rest := NotExecuted(p, executed);
      if last !in executed then
        assert (rest + [last])[..|rest|] == rest;
        rest + [last]
      else rest
  }

  /**
   * Without edges every node is ready in every round: the first round's list
   * is every node in key order, and once they have all run the next round's
   * filtered list is empty.
   */
  lemma {:induction false} NoEdgesAllReady(names: seq<string>, nodes: map<string, DAGNode>, completed: set<string>)
    requires forall n :: n in names ==> DepsOf(nodes, n) == {}
    ensures ReadyIn(names, nodes, completed) == names
    ensures NotExecuted(names, Elems(names)) == []
  {
    if names != [] {
      var p := names[..|names| - 1];
      assert names == p + [names[|names| - 1]];
      NoEdgesAllReady(p, nodes, completed);
      AllExecuted(names, Elems(names));
    }
  }

  /** Filtering out a set that holds every ready name leaves nothing. */
  lemma {:induction false} AllExecuted(readyTasks: seq<string>, executed: set<string>)
    requires forall n :: n in readyTasks ==> n in executed
    ensures NotExecuted(readyTasks, executed) == []
  {
    if readyTasks != [] {
      var p := readyTasks[..|readyTasks| - 1];
      assert readyTasks == p + [readyTasks[|readyTasks| - 1]];
      AllExecuted(p, executed);
    }
  }

  /** The ValueError raised for a name that is not registered. */
  function NotFound(taskName: string): TaskError
  {
    Other("ValueError", "Task '" + taskName + "' not found in registry")
  }

  /** execute_task_by_name: an unregistered name is an error and changes nothing; otherwise the task is called. */
  method ExecuteTaskByName(registry: TaskRegistry, taskName: string) returns (r: Result<Value, TaskError>)
    requires registry.Valid()
    modifies registry
    ensures registry.Valid()
    ensures taskName !in old(registry.tasks) ==>
              r == Err(NotFound(taskName)) && registry.history == old(registry.history) &&
              registry.active == old(registry.active) && registry.clock == old(registry.clock)
    ensures taskName in old(registry.tasks) ==>
              r == CallOutcome(old(registry.tasks)[taskName]) &&
              registry.history == old(registry.history) + [RunEvent(old(registry.tasks)[taskName], old(registry.clock))] &&
              registry.active == old(registry.active) - {taskName} && registry.clock == old(registry.clock) + 2
    ensures registry.tasks == old(registry.tasks) && registry.metadata == old(registry.metadata)
  {
    var task := registry.GetTask(taskName);
    if task.None? {
      return Err(NotFound(taskName));
    }
    r := Call(registry, task.value);
  }

  /** A successful run of a registered name: its task's body returned the value, and it is now completed. */
  lemma {:induction false} SuccessfulRun(tasks: map<string, Task>, h: seq<Event>, clock: Timestamp, taskName: string, v: Value)
    requires taskName in tasks && tasks[taskName].name == taskName && CallOutcome(tasks[taskName]) == Ok(v)
    ensures tasks[taskName].fn.body == Returns(v)
    ensures CompletedTasks(h + [RunEvent(tasks[taskName], clock)]) == CompletedTasks(h) + {taskName}
  {
    CallErrors(tasks[taskName]);
    RunRecorded(h, {}, tasks[taskName], clock);
  }

  /** A failed run of a registered name: its task's body raised, and the completed tasks stay as they were. */
  lemma {:induction false} FailedRun(tasks: map<string, Task>, h: seq<Event>, clock: Timestamp, taskName: string)
    requires taskName in tasks && tasks[taskName].name == taskName && CallOutcome(tasks[taskName]).Err?
    ensures tasks[taskName].fn.body.Raises?
    ensures CompletedTasks(h + [RunEvent(tasks[taskName], clock)]) == CompletedTasks(h)
  {
    CallErrors(tasks[taskName]);
    RunRecorded(h, {}, tasks[taskName], clock);
  }

  /**
   * What a prefix of execute_dag has done: `runs` are the tasks run
   * successfully, in order, each once; `results` holds each one's value; the
   * completed tasks are the ones `completed0` held at the start plus the runs;
   * and each run's dependencies had completed before it started.
   */
  ghost predicate RunSoFar(nodes: map<string, DAGNode>, tasks: map<string, Task>, completed0: set<string>,
                           h: seq<Event>, runs: seq<string>, results: map<string, Value>)
  {
    RunsOfNodes(nodes, runs) && ResultsOf(tasks, runs, results) &&
    CompletedTasks(h) == completed0 + Elems(runs) &&
    DependenciesRanFirst(nodes, completed0, runs)
  }

  ghost predicate RunsOfNodes(nodes: map<string, DAGNode>, runs: seq<string>)
  {
    Distinct(runs) && Elems(runs) <= nodes.Keys
  }

  ghost predicate ResultsOf(tasks: map<string, Task>, runs: seq<string>, results: map<string, Value>)
  {
    results.Keys == Elems(runs) &&
    forall n {:trigger results[n]} :: n in results ==> n in tasks && tasks[n].fn.body == Returns(results[n])
  }

  /** Each run's dependencies had completed before it: at the start, or as an earlier run. */
  predicate DependenciesRanFirst(nodes: map<string, DAGNode>, completed0: set<string>, runs: seq<string>)
  {
    runs == [] ||
    (DependenciesRanFirst(nodes, completed0, runs[..|runs| - 1]) &&
     DepsOf(nodes, runs[|runs| - 1]) <= completed0 + Elems(runs[..|runs| - 1]))
  }

  /** The i-th run's dependencies had completed before it started. */
  lemma {:induction false} RanAfterDependencies(nodes: map<string, DAGNode>, completed0: set<string>, runs: seq<string>, i: int)
    requires DependenciesRanFirst(nodes, completed0, runs) && 0 <= i < |runs|
    ensures DepsOf(nodes, runs[i]) <= completed0 + Elems(runs[..i])
  {
    var p := runs[..|runs| - 1];
    if i < |p| {
      RanAfterDependencies(nodes, completed0, p, i);
      assert p[i] == runs[i] && p[..i] == runs[..i];
    }
  }

  lemma {:induction false} DependenciesStep(nodes: map<string, DAGNode>, completed0: set<string>, runs: seq<string>, taskName: string)
    requires DependenciesRanFirst(nodes, completed0, runs)
    requires DepsOf(nodes, taskName) <= completed0 + Elems(runs)
    ensures DependenciesRanFirst(nodes, completed0, runs + [taskName])
  {
    assert (runs + [taskName])[..|runs|] == runs;
  }

  lemma {:induction false} ResultsStep(tasks: map<string, Task>, runs: seq<string>, results: map<string, Value>,
                                       taskName: string, v: Value)
    requires ResultsOf(tasks, runs, results)
    requires taskName in tasks && tasks[taskName].fn.body == Returns(v)
    ensures ResultsOf(tasks, runs + [taskName], results[taskName := v])
  {
    ElemsSnoc(runs, taskName);
  }

  /** One more successful run of a new, ready task keeps RunSoFar. */
  lemma {:induction false} RunStep(nodes: map<string, DAGNode>, tasks: map<string, Task>, completed0: set<string>,
                                   h: seq<Event>, runs: seq<string>, results: map<string, Value>,
                                   taskName: string, v: Value, h1: seq<Event>)
    requires RunSoFar(nodes, tasks, completed0, h, runs, results)
    requires taskName in nodes && taskName !in Elems(runs)
    requires taskName in tasks && tasks[taskName].fn.body == Returns(v)
    requires DepsOf(nodes, taskName) <= completed0 + Elems(runs)
    requires CompletedTasks(h1) == CompletedTasks(h) + {taskName}
    ensures RunSoFar(nodes, tasks, completed0, h1, runs + [taskName], results[taskName := v])
  {
    DistinctSnoc(runs, taskName);
    ElemsSnoc(runs, taskName);
    DependenciesStep(nodes, completed0, runs, taskName);
    ResultsStep(tasks, runs, results, taskName, v);
  }

  /** A round's ready list: fresh names of nodes, each once, each ready when the round began. */
  ghost predicate RoundReady(nodes: map<string, DAGNode>, completed: set<string>, before: seq<string>, ready: seq<string>)
  {
    Distinct(ready) &&
    forall k :: 0 <= k < |ready| ==>
      ready[k] in nodes && IsReady(nodes, completed, ready[k]) && ready[k] !in Elems(before)
  }

  /** The round's list: the ready names minus the ones already run. */
  lemma {:induction false} RoundReadyHolds(names: seq<string>, nodes: map<string, DAGNode>, completed: set<string>, before: seq<string>)
    requires KeyOrder(names, nodes)
    ensures RoundReady(nodes, completed, before, NotExecuted(ReadyIn(names, nodes, completed), Elems(before)))
  {
    var ready := NotExecuted(ReadyIn(names, nodes, completed), Elems(before));
    forall k | 0 <= k < |ready|
      ensures ready[k] in nodes && IsReady(nodes, completed, ready[k]) && ready[k] !in Elems(before)
    {
      assert ready[k] in ready;
      assert ready[k] in ReadyIn(names, nodes, completed);
    }
  }

  /**
   * The task at position j of a round may run: it is new, and its
   * dependencies had completed when the round began, so also before it.
   */
  lemma {:induction false} ReadyTaskMayRun(nodes: map<string, DAGNode>, completed0: set<string>, completed: set<string>,
                                           before: seq<string>, ready: seq<string>, j: int)
    requires RoundReady(nodes, completed, before, ready) && 0 <= j < |ready|
    requires completed == completed0 + Elems(before)
    ensures ready[j] in nodes && ready[j] !in Elems(before + ready[..j])
    ensures DepsOf(nodes, ready[j]) <= completed0 + Elems(before)
    ensures DepsOf(nodes, ready[j]) <= completed0 + Elems(before + ready[..j])
  {
    forall k | 0 <= k < j ensures ready[k] != ready[j] {
      DistinctAt(ready, k, j);
    }
    assert ready[j] !in Elems(ready[..j]);
    assert Elems(before + ready[..j]) == Elems(before) + Elems(ready[..j]);
  }

  lemma {:induction false} ExtendPrefix(before: seq<string>, ready: seq<string>, j: int)
    requires 0 <= j < |ready|
    ensures before + ready[..j + 1] == (before + ready[..j]) + [ready[j]]
  {
    assert ready[..j + 1] == ready[..j] + [ready[j]];
  }

  lemma {:induction false} RunsBound(runs: seq<string>, keys: set<string>)
    requires Distinct(runs) && Elems(runs) <= keys
    ensures |runs| <= |keys|
  {
    DistinctCard(runs);
    SubsetCard(Elems(runs), keys);
  }

  /**
   * The history events of calling the tasks `runs` in order from `clock`: the
   * i-th call reads the clock at `clock + 2 * i`, once on starting and once on
   * finishing.
   */
  function RunEvents(tasks: map<string, Task>, runs: seq<string>, clock: Timestamp): (r: seq<Event>)
    requires forall n :: n in runs ==> n in tasks
    ensures |r| == |runs|
    ensures forall i {:trigger r[i]} :: 0 <= i < |runs| ==> r[i] == RunEvent(tasks[runs[i]], clock + 2 * i)
  {
    if runs == [] then []
    else
      var p := runs[..|runs| - 1];
      assert forall n :: n in p ==> n in runs;
      RunEvents(tasks, p, clock) + [RunEvent(tasks[runs[|runs| - 1]], clock + 2 * (|runs| - 1))]
  }

  /** The event of the call that stopped execution: none when the failing name was never registered. */
  function FailEvents(tasks: map<string, Task>, failed: Option<string>, clock: Timestamp): seq<Event>
  {
    if failed.Some? && failed.value in tasks then [RunEvent(tasks[failed.value], clock)] else []
  }

  /**
   * The events of calling `runs` in order from `clock` and then, when
   * execution stopped at a registered task, that call's event.
   */
  function CallRecord(tasks: map<string, Task>, runs: seq<string>, failed: Option<string>, clock: Timestamp): (r: seq<Event>)
    requires forall n :: n in runs ==> n in tasks
    ensures |r| == |runs| + (if failed.Some? && failed.value in tasks then 1 else 0)
  {
    RunEvents(tasks, runs, clock) + FailEvents(tasks, failed, clock + 2 * |runs|)
  }

  /** The names whose calls took them out of the active set: the runs and a registered failing task. */
  function Calls(tasks: map<string, Task>, runs: seq<string>, failed: Option<string>): set<string>
  {
    Elems(runs) + (if failed.Some? && failed.value in tasks then {failed.value} else {})
  }

  lemma {:induction false} RunEventsSnoc(tasks: map<string, Task>, runs: seq<string>, x: string, clock: Timestamp)
    requires (forall n :: n in runs ==> n in tasks) && x in tasks
    ensures forall n :: n in runs + [x] ==> n in tasks
    ensures RunEvents(tasks, runs + [x], clock) == RunEvents(tasks, runs, clock) + [RunEvent(tasks[x], clock + 2 * |runs|)]
  {
    assert (runs + [x])[..|runs|] == runs;
  }

  /** Calling `a` and then `b` records `a`'s events and then `b`'s, from the clock `a` left. */
  lemma {:induction false} RunEventsAppend(tasks: map<string, Task>, a: seq<string>, b: seq<string>, clock: Timestamp)
    requires forall n :: n in a + b ==> n in tasks
    ensures forall n :: n in a ==> n in tasks
    ensures forall n :: n in b ==> n in tasks
    ensures RunEvents(tasks, a + b, clock) == RunEvents(tasks, a, clock) + RunEvents(tasks, b, clock + 2 * |a|)
  {
    assert forall n :: n in a ==> n in a + b;
    assert forall n :: n in b ==> n in a + b;
    var ab, ea, eb := RunEvents(tasks, a + b, clock), RunEvents(tasks, a, clock), RunEvents(tasks, b, clock + 2 * |a|);
    forall i | 0 <= i < |a + b|
      ensures ab[i] == (ea + eb)[i]
    {
      if i >= |a| {
        assert (a + b)[i] == b[i - |a|];
      }
    }
  }

  /**
   * The inner loop of execute_dag: the round's tasks in order, stopping at
   * the first that raises, whose name `failed` returns. The first `stop` of
   * them ran to completion.
   *
   * `h0`, `c0` and `a0` are the history, clock and active set before the
   * tasks `before` of the earlier rounds were called; the round continues
   * what those calls recorded.
   */
  method RunRound(registry: TaskRegistry, readyTasks: seq<string>, ghost completed0: set<string>,
                  results0: map<string, Value>, executed0: set<string>, ghost before: seq<string>,
                  ghost h0: seq<Event>, ghost c0: Timestamp, ghost a0: set<string>)
    returns (results: map<string, Value>, executedTasks: set<string>, ghost runs: seq<string>,
             failed: Option<string>, ghost stop: nat)
    requires registry.Valid()
    requires RunSoFar(registry.plan.nodes, registry.tasks, completed0, registry.history, before, results0)
    requires RoundReady(registry.plan.nodes, CompletedTasks(registry.history), before, readyTasks)
    requires executed0 == Elems(before)
    requires Recorded(registry.tasks, before, None, h0, c0, a0, registry.history, registry.clock, registry.active)
    modifies registry
    ensures registry.Valid()
    ensures registry.tasks == old(registry.tasks) && registry.metadata == old(registry.metadata)
    ensures RunSoFar(registry.plan.nodes, registry.tasks, completed0, registry.history, runs, results)
    ensures executedTasks == Elems(runs)
    ensures stop <= |readyTasks| && runs == before + readyTasks[..stop]
    ensures failed.None? <==> stop == |readyTasks|
    ensures failed.None? ==> runs == before + readyTasks
    ensures failed.Some? ==>
              failed.value == readyTasks[stop] && failed.value in registry.plan.nodes && failed.value !in results &&
              (failed.value !in registry.tasks || registry.tasks[failed.value].fn.body.Raises?)
    ensures Recorded(registry.tasks, runs, failed, h0, c0, a0, registry.history, registry.clock, registry.active)
  {
    results, executedTasks, runs, failed, stop := results0, executed0, before, None, 0;
    ghost var nodes, tasks, completed := registry.plan.nodes, registry.tasks, CompletedTasks(registry.history);
    for j := 0 to |readyTasks|
      invariant registry.Valid()
      invariant registry.plan.nodes == nodes
      invariant registry.tasks == tasks && registry.metadata == old(registry.metadata)
      invariant RunSoFar(nodes, tasks, completed0, registry.history, runs, results)
      invariant runs == before + readyTasks[..j] && stop == j
      invariant executedTasks == Elems(runs)
      invariant Recorded(tasks, runs, None, h0, c0, a0, registry.history, registry.clock, registry.active)
    {
      var taskName := readyTasks[j];
      ReadyTaskMayRun(nodes, completed0, completed, before, readyTasks, j);
      ExtendPrefix(before, readyTasks, j);
      ElemsSnoc(runs, taskName);
      ghost var h, clock, active := registry.history, registry.clock, registry.active;
      var result := ExecuteTaskByName(registry, taskName);
      if result.Err? {
        failed := Some(taskName);
        if taskName in tasks {
          FailedRun(tasks, h, clock, taskName);
          RaisedStop(tasks, runs, taskName, failed, h0, c0, a0, h, clock, active, tasks[taskName],
                     registry.history, registry.clock, registry.active);
        } else {
          MissingStop(tasks, runs, taskName, failed, h0, c0, a0, h, clock, active);
        }
        break;
      }
      SuccessfulRun(tasks, h, clock, taskName, result.value);
      RunStep(nodes, tasks, completed0, h, runs, results, taskName, result.value, registry.history);
      CallStep(tasks, runs, taskName, h0, c0, a0, h, clock, active, tasks[taskName],
               registry.history, registry.clock, registry.active);
      results := results[taskName := result.value];
      executedTasks := executedTasks + {taskName};
      runs := runs + [taskName];
      stop := j + 1;
    }
    if failed.None? {
      assert readyTasks[..|readyTasks|] == readyTasks;
    }
  }

  /**
   * The history, clock and active set after the calls of `runs` and, when
   * `failed` names a registered task, its failing call, starting from `h0`,
   * `c0` and `a0`: each call records one event and reads the clock twice.
   */
  ghost predicate Recorded(tasks: map<string, Task>, runs: seq<string>, failed: Option<string>,
                           h0: seq<Event>, c0: Timestamp, a0: set<string>,
                           h: seq<Event>, clock: Timestamp, active: set<string>)
  {
    (forall n :: n in runs ==> n in tasks) &&
    h == h0 + CallRecord(tasks, runs, failed, c0) &&
    clock == c0 + 2 * |CallRecord(tasks, runs, failed, c0)| &&
    active == a0 - Calls(tasks, runs, failed)
  }

  /** One more successful call of the registered task `x` adds its event, two clock readings and `x`. */
  lemma {:induction false} CallStep(tasks: map<string, Task>, runs: seq<string>, x: string,
                                    h0: seq<Event>, c0: Timestamp, a0: set<string>,
                                    h: seq<Event>, clock: Timestamp, a: set<string>,
                                    t: Task, h1: seq<Event>, clock1: Timestamp, a1: set<string>)
    requires Recorded(tasks, runs, None, h0, c0, a0, h, clock, a)
    requires x in tasks && t == tasks[x] && h1 == h + [RunEvent(t, clock)] && clock1 == clock + 2 && a1 == a - {x}
    ensures Recorded(tasks, runs + [x], None, h0, c0, a0, h1, clock1, a1)
  {
    ElemsSnoc(runs, x);
    RunEventsSnoc(tasks, runs, x, c0);
  }

  /** A registered task that raises stops execution; its event follows the earlier ones. */
  lemma {:induction false} RaisedStop(tasks: map<string, Task>, runs: seq<string>, x: string, failed: Option<string>,
                                      h0: seq<Event>, c0: Timestamp, a0: set<string>,
                                      h: seq<Event>, clock: Timestamp, a: set<string>,
                                      t: Task, h1: seq<Event>, clock1: Timestamp, a1: set<string>)
    requires Recorded(tasks, runs, None, h0, c0, a0, h, clock, a)
    requires x in tasks && t == tasks[x] && failed == Some(x)
    requires h1 == h + [RunEvent(t, clock)] && clock1 == clock + 2 && a1 == a - {x}
    ensures Recorded(tasks, runs, failed, h0, c0, a0, h1, clock1, a1)
  {
  }

  /** An unregistered name stops execution and records nothing more. */
  lemma {:induction false} MissingStop(tasks: map<string, Task>, runs: seq<string>, x: string, failed: Option<string>,
                                       h0: seq<Event>, c0: Timestamp, a0: set<string>,
                                       h: seq<Event>, clock: Timestamp, a: set<string>)
    requires Recorded(tasks, runs, None, h0, c0, a0, h, clock, a)
    requires x !in tasks && failed == Some(x)
    ensures Recorded(tasks, runs, failed, h0, c0, a0, h, clock, a)
  {
  }

  /** The tasks of the rounds, one round after another. */
  function Flatten(rounds: seq<seq<string>>): seq<string>
  {
    if rounds == [] then [] else Flatten(rounds[..|rounds| - 1]) + rounds[|rounds| - 1]
  }

  /**
   * The list a round of execute_dag works through, given the tasks run in the
   * rounds before it: the ready nodes, in key order, that have not run yet.
   */
  function RoundList(names: seq<string>, nodes: map<string, DAGNode>, completed0: set<string>, done: seq<string>): seq<string>
  {
    NotExecuted(ReadyIn(names, nodes, completed0 + Elems(done)), Elems(done))
  }

  /** Each round's list is the one the rounds before it leave, and none is empty. */
  ghost predicate Rounds(names: seq<string>, nodes: map<string, DAGNode>, completed0: set<string>, rounds: seq<seq<string>>)
  {
    rounds == [] ||
    (Rounds(names, nodes, completed0, rounds[..|rounds| - 1]) && rounds[|rounds| - 1] != [] &&
     rounds[|rounds| - 1] == RoundList(names, nodes, completed0, Flatten(rounds[..|rounds| - 1])))
  }

  lemma {:induction false} RoundsSnoc(names: seq<string>, nodes: map<string, DAGNode>, completed0: set<string>,
                                      rounds: seq<seq<string>>, list: seq<string>)
    requires Rounds(names, nodes, completed0, rounds)
    requires list != [] && list == RoundList(names, nodes, completed0, Flatten(rounds))
    ensures Rounds(names, nodes, completed0, rounds + [list])
    ensures Flatten(rounds + [list]) == Flatten(rounds) + list
  {
    assert (rounds + [list])[..|rounds|] == rounds;
  }

  /** Round r's list is the one the rounds before it leave. */
  lemma {:induction false} RoundAt(names: seq<string>, nodes: map<string, DAGNode>, completed0: set<string>,
                                   rounds: seq<seq<string>>, r: int)
    requires Rounds(names, nodes, completed0, rounds) && 0 <= r < |rounds|
    ensures rounds[r] == RoundList(names, nodes, completed0, Flatten(rounds[..r]))
  {
    var p := rounds[..|rounds| - 1];
    if r < |p| {
      RoundAt(names, nodes, completed0, p, r);
      assert p[r] == rounds[r] && p[..r] == rounds[..r];
    }
  }

  /**
   * Every task of a round was ready when the round began: it had not run in
   * an earlier round, and its dependencies had all completed before the round
   * started, not merely before the task itself.
   */
  lemma {:induction false} ReadyAtRoundStart(names: seq<string>, nodes: map<string, DAGNode>, completed0: set<string>,
                                             rounds: seq<seq<string>>, r: int, i: int)
    requires KeyOrder(names, nodes)
    requires Rounds(names, nodes, completed0, rounds) && 0 <= r < |rounds| && 0 <= i < |rounds[r]|
    ensures rounds[r][i] in nodes && rounds[r][i] !in Flatten(rounds[..r])
    ensures IsReady(nodes, completed0 + Elems(Flatten(rounds[..r])), rounds[r][i])
    ensures DepsOf(nodes, rounds[r][i]) <= completed0 + Elems(Flatten(rounds[..r]))
  {
    RoundAt(names, nodes, completed0, rounds, r);
    assert rounds[r][i] in rounds[r];
  }

  /**
   * The list one round of execute_dag works through: get_ready_tasks on the
   * current history, minus the tasks already run. An empty list means every
   * ready node has a result.
   */
  method PendingTasks(registry: TaskRegistry, executedTasks: set<string>, ghost completed0: set<string>,
                      ghost runs: seq<string>, ghost results: map<string, Value>)
    returns (readyTasks: seq<string>)
    requires registry.Valid()
    requires RunSoFar(registry.plan.nodes, registry.tasks, completed0, registry.history, runs, results)
    requires executedTasks == Elems(runs)
    ensures readyTasks == RoundList(registry.plan.names, registry.plan.nodes, completed0, runs)
    ensures RoundReady(registry.plan.nodes, CompletedTasks(registry.history), runs, readyTasks)
    ensures readyTasks == [] ==>
              forall n :: n in registry.plan.nodes && IsReady(registry.plan.nodes, CompletedTasks(registry.history), n) ==>
                n in results
  {
    readyTasks := GetReadyTasks(registry.plan.names, registry.plan.nodes, registry.history);
    readyTasks := NotExecuted(readyTasks, executedTasks);
    RoundReadyHolds(registry.plan.names, registry.plan.nodes, CompletedTasks(registry.history), runs);
    if readyTasks == [] {
      forall n | n in registry.plan.nodes && IsReady(registry.plan.nodes, CompletedTasks(registry.history), n)
        ensures n in results
      {
        assert n in ReadyIn(registry.plan.names, registry.plan.nodes, CompletedTasks(registry.history));
        assert n !in readyTasks;
      }
    }
  }

  /** Before the first round nothing has run and nothing has been recorded. */
  lemma {:induction false} NothingYet(nodes: map<string, DAGNode>, tasks: map<string, Task>,
                                      h: seq<Event>, clock: Timestamp, active: set<string>)
    ensures RunSoFar(nodes, tasks, CompletedTasks(h), h, [], map[])
    ensures Recorded(tasks, [], None, h, clock, active, h, clock, active)
  {
    assert Elems<string>([]) == {};
    assert h + [] == h;
  }

  /**
   * One round of execute_dag once its list `readyTasks` is known to be
   * non-empty: each of its tasks in order, appending the list to `rounds`. A
   * round that stops at a failing task says which one in `failed`.
   */
  method ExecuteRound(registry: TaskRegistry, readyTasks: seq<string>, ghost completed0: set<string>,
                      results0: map<string, Value>, executed0: set<string>,
                      ghost rounds0: seq<seq<string>>, ghost runs0: seq<string>,
                      ghost h0: seq<Event>, ghost c0: Timestamp, ghost a0: set<string>)
    returns (results: map<string, Value>, executedTasks: set<string>,
             ghost rounds: seq<seq<string>>, ghost runs: seq<string>, failed: Option<string>, ghost stop: nat)
    requires registry.Valid()
    requires RunSoFar(registry.plan.nodes, registry.tasks, completed0, registry.history, runs0, results0)
    requires executed0 == Elems(runs0)
    requires Rounds(registry.plan.names, registry.plan.nodes, completed0, rounds0) && runs0 == Flatten(rounds0)
    requires Recorded(registry.tasks, runs0, None, h0, c0, a0, registry.history, registry.clock, registry.active)
    requires readyTasks != [] && readyTasks == RoundList(registry.plan.names, registry.plan.nodes, completed0, runs0)
    requires RoundReady(registry.plan.nodes, CompletedTasks(registry.history), runs0, readyTasks)
    modifies registry
    ensures registry.Valid()
    ensures registry.tasks == old(registry.tasks) && registry.metadata == old(registry.metadata)
    ensures RunSoFar(registry.plan.nodes, registry.tasks, completed0, registry.history, runs, results)
    ensures executedTasks == Elems(runs)
    ensures Rounds(registry.plan.names, registry.plan.nodes, completed0, rounds)
    ensures Recorded(registry.tasks, runs, failed, h0, c0, a0, registry.history, registry.clock, registry.active)
    ensures failed.None? ==> runs == Flatten(rounds) && |runs0| < |runs| <= |registry.plan.nodes|
    ensures failed.Some? ==>
              rounds != [] && stop < |rounds[|rounds| - 1]| &&
              runs == Flatten(rounds[..|rounds| - 1]) + rounds[|rounds| - 1][..stop] &&
              failed.value == rounds[|rounds| - 1][stop] &&
              failed.value in registry.plan.nodes && failed.value !in results &&
              (failed.value !in registry.tasks || registry.tasks[failed.value].fn.body.Raises?)
  {
    RunsBound(runs0, registry.plan.nodes.Keys);
    RoundsSnoc(registry.plan.names, registry.plan.nodes, completed0, rounds0, readyTasks);
    rounds := rounds0 + [readyTasks];
    results, executedTasks, runs, failed, stop :=
      RunRound(registry, readyTasks, completed0, results0, executed0, runs0, h0, c0, a0);
    if failed.Some? {
      assert rounds[..|rounds| - 1] == rounds0;
    } else {
      RunsBound(runs, registry.plan.nodes.Keys);
    }
  }

  /**
   * execute_dag: rounds of get_ready_tasks, each round running the ready tasks
   * not yet run, until a round finds none; the first task that raises (a
   * constraint violation or any other error) stops everything, and the
   * results gathered so far are returned.
   *
   * `rounds` are the lists the rounds worked through, `runs` the successful
   * runs in order, and `failed` the task whose error stopped execution, at
   * position `stop` of the last round.
   */
  method ExecuteDag(registry: TaskRegistry)
    returns (results: map<string, Value>, ghost rounds: seq<seq<string>>, ghost runs: seq<string>,
             ghost failed: Option<string>, ghost stop: nat)
    requires registry.Valid()
    modifies registry
    ensures registry.Valid()
    ensures RunSoFar(registry.plan.nodes, registry.tasks, CompletedTasks(old(registry.history)), registry.history, runs, results)
    ensures Rounds(registry.plan.names, registry.plan.nodes, CompletedTasks(old(registry.history)), rounds)
    ensures failed.None? ==>
              runs == Flatten(rounds) &&
              RoundList(registry.plan.names, registry.plan.nodes, CompletedTasks(old(registry.history)), runs) == []
    ensures failed.Some? ==>
              rounds != [] && stop < |rounds[|rounds| - 1]| &&
              runs == Flatten(rounds[..|rounds| - 1]) + rounds[|rounds| - 1][..stop] &&
              failed.value == rounds[|rounds| - 1][stop]
    ensures failed.Some? ==>
              failed.value in registry.plan.nodes && failed.value !in results &&
              (failed.value !in registry.tasks || registry.tasks[failed.value].fn.body.Raises?)
    ensures failed.None? ==>
              forall n :: n in registry.plan.nodes && IsReady(registry.plan.nodes, CompletedTasks(registry.history), n) ==>
                n in results
    ensures registry.tasks == old(registry.tasks) && registry.metadata == old(registry.metadata)
    ensures Recorded(registry.tasks, runs, failed, old(registry.history), old(registry.clock), old(registry.active),
                     registry.history, registry.clock, registry.active)
  {
    ghost var completed0 := CompletedTasks(registry.history);
    ghost var tasks, h0, c0, a0 := registry.tasks, registry.history, registry.clock, registry.active;
    results, rounds, runs, failed, stop := map[], [], [], None, 0;
    var executedTasks: set<string> := {};
    NothingYet(registry.plan.nodes, tasks, h0, c0, a0);
    while true
      invariant registry.Valid()
      invariant registry.tasks == tasks && registry.metadata == old(registry.metadata)
      invariant RunSoFar(registry.plan.nodes, tasks, completed0, registry.history, runs, results)
      invariant executedTasks == Elems(runs)
      invariant Rounds(registry.plan.names, registry.plan.nodes, completed0, rounds) && runs == Flatten(rounds)
      invariant Recorded(tasks, runs, None, h0, c0, a0, registry.history, registry.clock, registry.active)
      invariant |runs| <= |registry.plan.nodes|
      decreases |registry.plan.nodes| - |runs|
    {
      var readyTasks := PendingTasks(registry, executedTasks, completed0, runs, results);
      if readyTasks == [] {
        break;
      }
      var stoppedAt;
      results, executedTasks, rounds, runs, stoppedAt, stop :=
        ExecuteRound(registry, readyTasks, completed0, results, executedTasks, rounds, runs, h0, c0, a0);
      if stoppedAt.Some? {
        failed := stoppedAt;
        break;
      }
    }
  }
}
