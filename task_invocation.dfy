/**
 * The stateful half of tasks.py: creating a task registers it, calling it
 * records its run in the registry, and create_path_to records a dependency.
 */
module TaskInvocation {
  import opened Wrappers
  import opened Strings
  import opened Constraints
  import opened TaskIdentity
  import opened Dag
  import opened ConstraintValidator
  import opened Registry
  import opened Paths

  /**
   * Task(fn, name, description, constraints): derives the names, with the hash
   * `_generate_unique_hash` draws given as an input, and registers the task
   * with its metadata.
   */
  method NewTask(registry: TaskRegistry, fn: Callable, name: Option<string>, description: Option<string>,
                 constraints: Option<Constraints>, instanceHash: string) returns (t: Task)
    requires registry.Valid() && IsInstanceHash(instanceHash)
    modifies registry, registry.plan
    ensures registry.Valid()
    ensures t == NewTaskValue(fn, name, description, constraints, instanceHash)
    ensures registry.tasks == old(registry.tasks)[t.name := t]
    ensures registry.metadata == old(registry.metadata)[t.name := Some(MetadataOf(t))]
    ensures registry.plan.names == AddName(old(registry.plan.names), old(registry.plan.nodes), t.name)
    ensures registry.plan.nodes == WithTask(old(registry.plan.nodes), t.name)
    ensures registry.DisplayName(t.name) == t.baseName
    ensures registry.history == old(registry.history) && registry.active == old(registry.active)
    ensures registry.clock == old(registry.clock)
  {
    t := NewTaskValue(fn, name, description, constraints, instanceHash);
    registry.RegisterTask(t, Some(MetadataOf(t)));
    DisplayNameOfRegistered(registry.tasks, registry.metadata, t);
  }

  /** The message of the RuntimeError a failing task re-raises. */
  function FailureMessage(taskName: string, message: string): string
  {
    "Task '" + taskName + "' failed: " + message
  }

  /** What calling a task gives its caller: the body's value, or the error it re-raises. */
  function CallOutcome(t: Task): Result<Value, TaskError>
  {
    match t.fn.body
    case Returns(v) => Ok(v)
    case Raises(e) => Err(if e.Violation? then e else Runtime(FailureMessage(t.name, ErrorMessage(e))))
  }

  /** The one event a run leaves in the history, started at `clock` and ended at `clock + 1`. */
  function RunEvent(t: Task, clock: Timestamp): Event
  {
    match t.fn.body
    case Returns(_) => Completed(t.name, Some(clock), clock + 1)
    case Raises(e) => Failed(t.name, ErrorMessage(e), Some(clock), clock + 1)
  }

  /**
   * A constraint violation reaches the caller unchanged; any other error is
   * wrapped in a RuntimeError naming the task and ending with the original
   * message.
   */
  lemma CallErrors(t: Task)
    ensures t.fn.body.Returns? <==> CallOutcome(t).Ok?
    ensures t.fn.body.Returns? ==> CallOutcome(t).value == t.fn.body.value
    ensures t.fn.body.Raises? && t.fn.body.error.Violation? ==> CallOutcome(t) == Err(t.fn.body.error)
    ensures t.fn.body.Raises? && !t.fn.body.error.Violation? ==>
              CallOutcome(t).error.Runtime? &&
              var m := CallOutcome(t).error.message;
              var original := ErrorMessage(t.fn.body.error);
              m == "Task '" + t.name + "' failed: " + original &&
              |m| == |t.name| + |original| + 16 && m[6..6 + |t.name|] == t.name && m[|m| - |original|..] == original
  {
    if t.fn.body.Raises? && !t.fn.body.error.Violation? {
      var m := CallOutcome(t).error.message;
      var original := ErrorMessage(t.fn.body.error);
      assert m == ("Task '" + t.name) + ("' failed: " + original);
      assert m[6..][..|t.name|] == t.name;
    }
  }

  /**
   * After a run the task's node shows "completed" exactly when its body
   * returned, and otherwise "failed" with the body's error; the completed
   * tasks gain it exactly when it succeeded.
   */
  lemma {:induction false} RunRecorded(h: seq<Event>, active: set<string>, t: Task, clock: Timestamp)
    ensures StatusOf(h + [RunEvent(t, clock)], active, t.name) == (if t.fn.body.Returns? then StatusCompleted else StatusFailed)
    ensures ErrorOf(h + [RunEvent(t, clock)], t.name) ==
              (if t.fn.body.Returns? then None else Some(ErrorMessage(t.fn.body.error)))
    ensures CompletedTasks(h + [RunEvent(t, clock)]) == CompletedTasks(h) + (if t.fn.body.Returns? then {t.name} else {})
  {
    StatusStep(h, RunEvent(t, clock), active, t.name);
    CompletedTasksAppend(h, RunEvent(t, clock));
  }

  /**
   * task(...): the run is marked started, the body runs, and the run is marked
   * completed or failed; the start event is folded into the terminal one.
   */
  method Call(registry: TaskRegistry, t: Task) returns (r: Result<Value, TaskError>)
    requires registry.Valid()
    modifies registry
    ensures registry.Valid()
    ensures r == CallOutcome(t)
    ensures registry.history == old(registry.history) + [RunEvent(t, old(registry.clock))]
    ensures registry.active == old(registry.active) - {t.name}
    ensures registry.clock == old(registry.clock) + 2
    ensures registry.tasks == old(registry.tasks) && registry.metadata == old(registry.metadata)
  {
    ghost var h0, c0 := registry.history, registry.clock;
    registry.MarkTaskStarted(t.name);
    match t.fn.body {
      case Returns(v) =>
        registry.MarkTaskCompleted(t.name);
        StartThenFinish(h0, t.name, "", c0, c0 + 1);
        r := Ok(v);
      case Raises(e) =>
        registry.MarkTaskFailed(t.name, ErrorMessage(e));
        StartThenFinish(h0, t.name, ErrorMessage(e), c0, c0 + 1);
        if e.Violation? {
          r := Err(e);
        } else {
          r := Err(Runtime(FailureMessage(t.name, ErrorMessage(e))));
        }
    }
  }

  /** create_path_to: Path(from_task=self, to_task=toTask). */
  method CreatePathTo(registry: TaskRegistry, self: Task, toTask: Task)
    returns (r: Result<Path, ConstraintViolationError>, report: Option<string>)
    requires registry.Valid()
    modifies registry.plan
    ensures registry.Valid()
    ensures var v := ValidateDependency(old(registry.plan.nodes), registry.tasks, self.name, toTask.name, self);
            (r.Ok? <==> v.Pass?) && (r.Ok? ==> r.value == Path(self, toTask)) && (r.Err? ==> r.error == v.error)
    ensures r.Err? ==>
              registry.plan.nodes == TouchedNodes(old(registry.plan.nodes), registry.tasks, self.name, toTask.name)
    ensures r.Ok? ==>
              DependencyAdded(TouchedNames(old(registry.plan.names), old(registry.plan.nodes), registry.tasks,
                                           self.name, toTask.name),
                              TouchedNodes(old(registry.plan.nodes), registry.tasks, self.name, toTask.name),
                              toTask.name, self.name, registry.plan.names, registry.plan.nodes)
  {
    r, report := NewPath(registry, self, toTask);
  }
}
