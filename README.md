# Latch orchestration core in Dafny

This project models the orchestration core of Latch (`src/latch/orchestration/`).
In Latch, Python functions are wrapped as *tasks*. Calling one task from another,
or creating an explicit *path* between two tasks, records a runtime dependency
in a task-dependency graph (the *execution plan*). Before an edge is recorded it
is checked against the *constraints* of the two tasks: outdegree and indegree
limits, and allow-lists of base names. A rejected edge is reported as a
Graphviz (DOT) drawing and re-raised. The registry also keeps an execution
history of started, completed and failed events. From that history it derives
each node's status, and the scheduler uses it to run the graph round by round.

Modules, following the source files:

- `Dag` (dag.py). The class `TaskDependencyDAG` holds a dict of `DAGNode`
  values, modelled as a map plus the dict's key order as a sequence.
  `add_task` and `add_dependency` change that state. Kahn's topological sort
  and `to_json` are loops over their own local state.
- `Constraints` (the value types of constraints.py). `Constraints` is built
  through pydantic's `ge=0` validation. `ConstraintViolationError` and its
  `str()` text live here too.
- `ConstraintValidator` (the checks of constraints.py). These are pure
  functions over the graph's nodes and the task registry, returning
  `Pass` or `Fail(error)`.
- `Violation` (violation.py). It classifies an error message by keywords and
  builds the DOT text.
- `TaskIdentity` (the pure half of tasks.py). It covers what a task is, its
  base name, its unique name and the metadata it registers with.
- `Registry` (registry.py).
  - Class `TaskRegistry`: tasks, metadata, the plan, the execution history,
    the active set, and a clock standing for `datetime.now()`.
  - The history operations, the display name, the calling task, and the
    status annotation of DAG nodes.
- `TaskInvocation` (the stateful half of tasks.py). It covers constructing a
  task (which registers it), calling a task, and `create_path_to`.
- `Paths` (path.py).
- `Scheduler` (scheduler.py).
- `Strings` and `Wrappers` are helpers: substring search, ASCII lower-casing,
  split/join, decimal numerals, `Option`/`Result`/`Outcome`.

Modelling choices:

- Each Python dict is a Dafny `map` together with its key order where order
  matters. `topological_sort`, `to_json` and `get_ready_tasks` all iterate the
  DAG's node dict in insertion order, so `TaskDependencyDAG.names` keeps that
  order.
- Python sets stay sets, except the allow-lists. An allow-list is a sequence
  in the order the set iterates, because `str(set)` is printed in violation
  messages.
- A task's function is abstract. It is the outcome its body has: it returns a
  value or raises an error, given as `Body`.
- The SHA-256 hash that `_generate_unique_hash` draws is an input: any eight
  lower-case hexadecimal characters.
- Timestamps come from a counter owned by the registry, which advances once
  per reading of `_get_timestamp`.
- Printed output that carries information becomes an out-parameter:
  - the cycle warning of `topological_sort` becomes `cycleWarning`;
  - the DOT text printed by the violation handler becomes `report`.

## Model

| member | source | states |
|---|---|---|
| Dag.TaskDependencyDAG.constructor | src/latch/orchestration/dag.py:24-25 | A new graph has no nodes and an empty key order. |
| Dag.TaskDependencyDAG.AddTask | src/latch/orchestration/dag.py:27-31 | The returned node is the one stored under the name. A missing name gets an isolated node at the end of the key order. An existing name leaves every node as it was (idempotence). The graph invariants are kept. |
| Dag.TaskKeepsInvariant | src/latch/orchestration/dag.py:16-20 | add_task keeps three invariants: the key order lists each node once; every edge end is a node; x is a dependency of y exactly when y is a dependent of x. |
| Dag.TaskDependencyDAG.AddDependency | src/latch/orchestration/dag.py:33-38 | Both nodes exist afterwards, and new names are appended to the key order. The first gains the second as a dependency and the second gains the first as a dependent. Every other set keeps its old contents, so the graph only grows. Re-adding a recorded edge changes nothing. The symmetry invariant is kept. |
| Dag.DependencyOnValues | src/latch/orchestration/dag.py:33-38 | The same statement on values: after the two add_task calls and the two set insertions, the invariant holds and the new state is exactly the old one plus the nodes and the edge. |
| Dag.EdgeAlreadyThere | src/latch/orchestration/dag.py:37-38 | Adding an edge that is already recorded leaves the graph equal to what it was. |
| Dag.InDegrees | src/latch/orchestration/dag.py:44-47 | The in-degree map has exactly the node names as keys, each mapped to its number of dependencies. |
| Dag.KahnLoop | src/latch/orchestration/dag.py:53-61 | From the zero-in-degree queue, the loop ends in the Kahn state described below. The emitted list holds distinct nodes, each emitted after all its dependencies. No node is left queued. Every unemitted node still waits on an unemitted dependency. |
| Dag.ReleaseDependents | src/latch/orchestration/dag.py:58-61 | Decrementing the in-degree of each dependent of the popped node, and queueing those that reach zero, restores the Kahn state with nothing pending. |
| Dag.KahnOutcome | src/latch/orchestration/dag.py:63-72 | The order returned is the emitted nodes, followed by the unvisited nodes in key order only when some were never emitted. It is a permutation of all nodes. The cycle branch is taken exactly when the graph has a cycle. Without a cycle every dependency precedes its dependents. |
| Dag.TaskDependencyDAG.TopologicalSort | src/latch/orchestration/dag.py:40-72 | An empty graph gives `[]` and no warning. Otherwise the result is a permutation of the node names. The cycle warning is issued if and only if the graph has a cycle. Without one, every dependency comes before each of its dependents. In every case the order is a dependencies-first prefix followed by the remaining nodes in insertion order, each of which waits on a dependency among those remaining. |
| Dag.LeftoverWaits | src/latch/orchestration/dag.py:64-70 | Every node of the unvisited list that Kahn's loop leaves has a dependency that is also in that list. |
| Dag.SplitIsUnique | src/latch/orchestration/dag.py:63-70 | A distinct order splits in only one place into a dependencies-first prefix and a rest whose nodes all wait on a node of the rest. So the prefix of the cycle-case order is fixed by the order itself. |
| Dag.OrderedGraphIsAcyclic | src/latch/orchestration/dag.py:63-64 | A graph that can be listed dependencies-first has no cycle: the cycle branch is never taken for an acyclic graph. |
| Dag.LeftoverHasCycle | src/latch/orchestration/dag.py:64-70 | A non-empty set of nodes, each waiting on a dependency inside the set, contains a cycle. So the leftover nodes of Kahn's loop witness a real cycle. |
| Dag.NodeEntriesOf | src/latch/orchestration/dag.py:77-89 | Entry i of `to_json`'s node list describes `order[i]`: its id and label are the name, its counts are the sizes of its two sets, and its topological_position is i. |
| Dag.EdgesInto | src/latch/orchestration/dag.py:95-104 | One node's dependencies produce one edge each, numbered consecutively from the running counter. Each edge has the dependency as source and the node as target, and no pair repeats. |
| Dag.EdgeEntries | src/latch/orchestration/dag.py:92-104 | The edge list has exactly one edge per recorded (dependency, dependent) pair, and the pairs are distinct. Edge i has id `edge_i`, type "dependency" and label "depends_on". The number of edges is the sum of the dependency-set sizes. |
| Dag.EdgeIdRoundTrip | src/latch/orchestration/dag.py:97 | An edge id is `edge_` followed by decimal digits that read back as the edge's number. |
| Dag.EdgeIdsDistinct | src/latch/orchestration/dag.py:93-104 | Edges with different numbers get different ids. |
| Dag.TaskDependencyDAG.ToJson | src/latch/orchestration/dag.py:74-116 | The nodes follow the topological order, which is a permutation of the nodes. There is one edge per (dependency, dependent) pair, all with distinct pairs. total_nodes is the number of nodes. total_edges is both the number of edges and the sum of the dependency-set sizes. Without a cycle the order is dependencies-first; in every case it splits as the order of topological_sort does. |
| Constraints.NewConstraintsValidates | src/latch/orchestration/constraints.py:20-27 | Construction succeeds exactly when each limit is absent or at least zero, and then every field is kept as given. A failure names each offending limit and only those. |
| Constraints.DefaultsConstruct | src/latch/orchestration/constraints.py:20-27 | With no arguments there are no limits and both allow-lists are empty. |
| Constraints.SetReprFree | src/latch/orchestration/constraints.py:74-78 | `str()` of a non-empty allow-list starts with `{`, and it contains a keyword only if one of its names does. This is used to classify messages. |
| ConstraintValidator.OutgoingVerdict | src/latch/orchestration/constraints.py:35-81 | The outgoing check fails if and only if the caller has constraints and either rule is broken. The outdegree rule is broken when the limit is set and the caller's current dependents (none for an absent node) are at least the limit. The allow-list rule is broken when the list is non-empty and the callee's base name is not in it. The error is of type outgoing_edges and names the caller. When the limit is what is broken, it carries the outdegree message. |
| ConstraintValidator.IncomingVerdict | src/latch/orchestration/constraints.py:83-129 | The incoming check fails if and only if the callee is registered with constraints and either rule is broken. The indegree rule compares the callee's current dependencies with the limit. The allow-list rule checks the caller's base name. The error is of type incoming_edges and names the callee. |
| ConstraintValidator.DependencyVerdict | src/latch/orchestration/constraints.py:131-139 | A dependency passes exactly when both checks pass. When the outgoing check fails, its error is the one raised; otherwise the incoming error is. |
| ConstraintValidator.ZeroOutdegreeRejectsAll | src/latch/orchestration/constraints.py:48-57 | With an outdegree limit of 0, every edge from the task is rejected with an outgoing_edges error. |
| ConstraintValidator.OutdegreeOneAllowsOneEdge | src/latch/orchestration/constraints.py:48-57 | With an outdegree limit of 1, once the caller has an edge, any further edge from it is rejected, whatever its target. |
| ConstraintValidator.OutdegreeLimitKept | src/latch/orchestration/constraints.py:42-57 | An edge the outgoing check accepts leaves the caller with at most its limit of dependents. |
| ConstraintValidator.IndegreeLimitKept | src/latch/orchestration/constraints.py:90-106 | An edge the incoming check accepts leaves a registered callee with at most its limit of dependencies. |
| ConstraintValidator.AllowListDecides | src/latch/orchestration/constraints.py:59-81 | With no outdegree limit, the outgoing check fails if and only if the allow-list is non-empty and lacks the callee's base name. An empty list allows everything. The base name is the registered one, or the raw name for an unregistered callee. |
| ConstraintValidator.ValidationIgnoresNewNodes | src/latch/orchestration/registry.py:79-85 | Adding isolated nodes before validating (as add_runtime_dependency does) does not change the verdict. |
| Violation.ReasonByKeywords | src/latch/orchestration/violation.py:28-41 | On the lower-cased message, the label is chosen in priority order: outgoing with "not in allowed", then incoming with "not in allowed", then outgoing with "limit", then incoming with "limit". |
| Violation.OutdegreeReason | src/latch/orchestration/violation.py:36-37 | The text of an outdegree error is labelled OUTGOING LIMIT EXCEEDED when the task names do not contain "allowed". |
| Violation.IndegreeReason | src/latch/orchestration/violation.py:38-39 | The text of an indegree error is labelled INCOMING LIMIT EXCEEDED when the names contain neither "allowed" nor "outgoing". |
| Violation.OutgoingAllowReason | src/latch/orchestration/violation.py:32-33 | The text of an outgoing allow-list error is labelled OUTGOING NOT ALLOWED, whatever the names. |
| Violation.IncomingAllowReason | src/latch/orchestration/violation.py:34-35 | The text of an incoming allow-list error is labelled INCOMING NOT ALLOWED when no name contains "outgoing". |
| Violation.SideIsColored | src/latch/orchestration/violation.py:61-67 | For an outgoing_edges error the caller node is light coral. For an incoming_edges error the callee node is light coral. |
| Violation.HandlerLabelsBrokenRule | src/latch/orchestration/violation.py:52-87 | For a rejected edge between plain names, the label names the rule the validator found broken. The offending side (the caller for an outgoing rule, the callee for an incoming one) is light coral and the other side is light yellow. |
| Violation.GraphvizHasTwelveLines | src/latch/orchestration/violation.py:72-87 | When no name contains a newline, splitting the DOT text at newlines gives back exactly its 12 lines. The first is `digraph ConstraintViolation {` and the last is `}`. The nodes are the raw task names, labelled with their display names. The one edge runs from caller to callee, labelled with the reason. |
| TaskIdentity.BaseNamePriority | src/latch/orchestration/tasks.py:44-51 | The base name is the explicit name if it is non-empty, else `fn.__name__`, else the name of fn's type. |
| TaskIdentity.UniqueNameSplits | src/latch/orchestration/tasks.py:53-63 | The hash has no `_`, so the last `_` of a unique name follows the base name. Cutting there gives back the base name and the hash. |
| TaskIdentity.UniqueNameInjective | src/latch/orchestration/tasks.py:53-56 | Equal unique names come from equal base names and equal hashes. |
| TaskIdentity.MetadataRecordsTask | src/latch/orchestration/tasks.py:65-78 | The registered metadata records the description, `constraints is not None`, the base name, the hash and the unique name `base_name + "_" + hash`. |
| TaskInvocation.NewTask | src/latch/orchestration/tasks.py:32-58 | Construction builds the task from its names and registers it with its metadata under its unique name. Its node is added if missing, and its display name is its base name. The history, active set and clock are untouched. |
| TaskInvocation.CallErrors | src/latch/orchestration/tasks.py:92-110 | A call returns the body's value exactly when the body returns. A constraint violation is re-raised unchanged. Any other error becomes a RuntimeError whose message is `Task '<name>' failed: ` followed by the original message. |
| TaskInvocation.RunRecorded | src/latch/orchestration/tasks.py:93-101 | After a run, the task's status is completed exactly when its body returned, and failed with the body's error otherwise. It joins the completed tasks exactly when it succeeded. |
| TaskInvocation.Call | src/latch/orchestration/tasks.py:86-110 | The result is the call outcome above. The history gains exactly one event: the start folded into a completed or failed event that carries the start time. The task leaves the active set. The plan is not in the method's frame, so a call adds no edge. |
| TaskInvocation.CreatePathTo | src/latch/orchestration/tasks.py:80-84 | The outcome is the same as `Path(self, toTask)`: a path exactly when validation passes, and the graph change of add_runtime_dependency. |
| Paths.NewPath | src/latch/orchestration/path.py:12-31 | `add_runtime_dependency(from.name, to.name, from)` runs once, with `from` as the caller. A path is returned exactly when the validation passes, and then to.name's node depends on from.name. A violation propagates with no edge added and with the DOT report. |
| Paths.ReprDeterminesNames | src/latch/orchestration/path.py:33-34 | When the from-name has no comma, the text `Path(from=<f>, to=<t>)` determines both names. |
| Registry.TaskRegistry.constructor | src/latch/orchestration/registry.py:20-31 | A new registry has no tasks, metadata, history or active tasks, and an empty plan. |
| Registry.TaskRegistry.GetTask | src/latch/orchestration/registry.py:59-60 | Some task exactly when the name is registered, and then the registered task. |
| Registry.TaskRegistry.RegisterTask | src/latch/orchestration/registry.py:51-57 | The task and its metadata are stored under its name, with None standing for `{}`. Its node is added, isolated, when missing. The history is untouched. |
| Registry.DisplayNameOfRegistered | src/latch/orchestration/registry.py:68-71 | A registered task shows its metadata's base name, or its full name when the metadata is empty. |
| Registry.DisplayNameCuts | src/latch/orchestration/registry.py:72-75 | An unregistered name containing `_` shows everything before its last `_`. One without `_` shows the name itself. |
| Registry.DisplayNameOfUniqueName | src/latch/orchestration/registry.py:72-74 | An unregistered unique name shows the base name it was built from. |
| Registry.TaskRegistry.AddRuntimeDependency | src/latch/orchestration/registry.py:77-92 | The caller's node, and a registered callee's node, are added first. The verdict is that of validating on the graph as it was. A rejection adds no edge and returns the handler's DOT text. An acceptance adds the edge `add_dependency(callee, caller)`: the callee depends on the caller. |
| Registry.RejectionAddsNoEdge | src/latch/orchestration/registry.py:79-88 | After a rejection the only new nodes are the caller and a registered callee, and no node's dependency or dependent set changes. |
| Registry.CommitAddsEdge | src/latch/orchestration/registry.py:79-90 | After an acceptance, at every node, the callee's dependencies gain the caller and the caller's dependents gain the callee. Every other set is what it was before the call. |
| Registry.TaskRegistry.MarkTaskStarted | src/latch/orchestration/registry.py:94-102 | The task becomes active and exactly one started event is appended, stamped with the clock. |
| Registry.LastStartIsLast | src/latch/orchestration/registry.py:111-115 | The index found is a start of the task and no later event is one. None means the history has no start of the task. |
| Registry.FindLastStart | src/latch/orchestration/registry.py:111-115 | The reversed scan returns the index of the task's most recent started event, or None. |
| Registry.RemoveLastStartShape | src/latch/orchestration/registry.py:117-119 | Popping removes exactly that one started event, and putting it back at its index restores the old history. Without a start nothing is removed. |
| Registry.TerminalHistoryLength | src/latch/orchestration/registry.py:104-157 | Completing or failing leaves the history length unchanged when a start was popped, and adds one otherwise. |
| Registry.OthersUntouched | src/latch/orchestration/registry.py:104-157 | The events of every other task keep their contents and relative order. |
| Registry.TaskRegistry.MarkTaskCompleted | src/latch/orchestration/registry.py:104-129 | The task leaves the active set. Its latest start is popped, and a completed event is appended carrying that start's timestamp (None without one). |
| Registry.TaskRegistry.MarkTaskFailed | src/latch/orchestration/registry.py:131-157 | Likewise, with a failed event carrying `str(error)`. |
| Registry.StartThenFinish | src/latch/orchestration/registry.py:94-157 | A start directly followed by its completion (or failure) leaves a single terminal event carrying the start's timestamp. |
| Registry.CompletedTasksGrow | src/latch/orchestration/registry.py:104-157 | Completing adds the task to the set of tasks with a completed event. Failing leaves that set as it was. |
| Registry.CallingTaskIsLatest | src/latch/orchestration/registry.py:160-169 | get_calling_task looks up the task of the latest started event whose task is active and is not the current one; no later event qualifies. When no event qualifies it returns None. |
| Registry.StatusStep | src/latch/orchestration/registry.py:271-284 | A completed event makes the task completed and clears its error. A failed event makes it failed with that error. A start leaves any status other than pending as it was, and turns pending into running for an active task. Other tasks' events change nothing. |
| Registry.DeriveStatuses | src/latch/orchestration/registry.py:262-292 | The loop's status and error maps agree, on every task, with the status of its last terminal event (else running if started and active, else pending) and with that event's error when it is a failure. |
| Registry.StatusAfterFinish | src/latch/orchestration/registry.py:276-281 | After mark_task_completed the node's status is completed with no error. After mark_task_failed it is failed with the error. |
| Registry.OwnMetadataAgrees | src/latch/orchestration/registry.py:248-260 | For a task registered with its own metadata, the has_constraints and description fields copied from the task agree with the metadata, and unique_name is the node's id. |
| Registry.TaskRegistry.AnnotateNodes | src/latch/orchestration/registry.py:247-292 | Node i of the annotated snapshot carries: the fields of the registered task, its metadata, the status derived from the history, and the error. |
| Scheduler.ReadyIn | src/latch/orchestration/scheduler.py:74-89 | A node is ready if and only if it has no dependencies, or all its dependencies and not itself have a completed event. Ready nodes keep key order and none repeats. |
| Scheduler.GetReadyTasks | src/latch/orchestration/scheduler.py:69-91 | The loop returns exactly the ready nodes, in key order, for the completed tasks in the history. |
| Scheduler.NotExecuted | src/latch/orchestration/scheduler.py:36 | The filtered list holds the ready names not yet executed, and only those, without repeats. |
| Scheduler.NoEdgesAllReady | src/latch/orchestration/scheduler.py:74-77 | Without edges, every node is ready in key order. Once all have run, the next round's filtered list is empty. |
| Scheduler.ExecuteTaskByName | src/latch/orchestration/scheduler.py:13-20 | An unregistered name gives the ValueError `Task '<name>' not found in registry` and changes nothing. A registered name is called, with the effects of the call. |
| Scheduler.SuccessfulRun | src/latch/orchestration/scheduler.py:46-49 | A successful run means the body returned that value, and the task joins the completed tasks. |
| Scheduler.FailedRun | src/latch/orchestration/scheduler.py:51-60 | A failed run means the body raised, and the completed tasks stay as they were. |
| Scheduler.ReadyTaskMayRun | src/latch/orchestration/scheduler.py:33-47 | Each task of a round has not run before, in an earlier round or earlier in this one, and its dependencies had completed when the round's list was computed. |
| Scheduler.RunRound | src/latch/orchestration/scheduler.py:43-60 | The round runs its tasks in order and stops at the first one that raises, returning its name. The runs are exactly the tasks before it, or the whole list when none raises. Each runs once, after its dependencies, and its value is recorded. The history gains the events of these calls in order, then the failing call's event when the failing name is registered. The clock advances by two per call, and every called task leaves the active set. |
| Scheduler.RunEvents | src/latch/orchestration/scheduler.py:43-60 | The events of a sequence of calls: one per call, and the i-th is the run event of the i-th task, stamped two clock readings after the one before. |
| Scheduler.RunEventsAppend | src/latch/orchestration/scheduler.py:31-60 | The events of two sequences of calls made one after the other are the first sequence's events and then the second's, starting from the clock the first left. |
| Scheduler.RanAfterDependencies | src/latch/orchestration/scheduler.py:43-49 | The i-th successful run's dependencies had all completed before it: at the start or as one of the earlier runs. |
| Scheduler.PendingTasks | src/latch/orchestration/scheduler.py:33-40 | The round's list is the ready nodes in key order minus those already run. Each entry is a node, ready, new and listed once. An empty list means every ready node has a result. |
| Scheduler.ExecuteRound | src/latch/orchestration/scheduler.py:42-60 | A non-empty round extends the rounds by its list and runs it. Without a stop, all its tasks ran and the runs grow. With a stop, the runs are the earlier rounds plus the prefix of this one before the failing task. The record of calls extends as in RunRound. |
| Scheduler.RoundAt | src/latch/orchestration/scheduler.py:31-40 | Round r works through the list that the runs of the rounds before it leave: the ready nodes in key order that have not run. |
| Scheduler.ReadyAtRoundStart | src/latch/orchestration/scheduler.py:33-43 | Every task of round r is a node that did not run in an earlier round. It was ready when the round began, and its dependencies had completed by then, not merely before its own turn. |
| Scheduler.ExecuteDag | src/latch/orchestration/scheduler.py:23-63 | The rounds are the successive lists of ready, not yet run nodes, none empty. Without a stop the runs are all the rounds' tasks, and the next list would be empty. With a stop, the runs are the earlier rounds plus the last round's tasks before the first failure, and the failing task is the next one of that round. Each run task ran once, after its dependencies had completed. The results hold exactly the tasks that succeeded, each with its body's value. A stop names a node that is unregistered or whose body raised, and it has no result. Without a stop, every node that is still ready has a result. The history gains exactly the events of the runs in order, then the failed call's event when the failing name is registered. The clock advances by two per call and the called tasks leave the active set. The loop ends: its decreases clause is the number of nodes not yet run, which each round lowers. |

## Left out

- visualizer/, emitter.py, call_context.py and `__init__.py` are not part of this model. They are user interface code, an HTTP client, stack-frame reflection and re-exports.
- The registry's `threading.Lock` and the global singleton: the model has one registry object, handed to each operation.
- The lazy creation of the plan and of the validator: the plan exists from construction on, and the validator reads the registry's current graph and tasks, as the source's shared references do.
- The values of SHA-256, `time.time_ns()`, `id(self)` and `datetime.now()`. The hash is an input. Timestamps are abstract; only their order is modelled.
- All printing; `print_dag`, `print_task_registry`, `print_execution_plan`, `print_scheduler_status` and the emission of the snapshot to the visualizer; `generated_at`; `get_execution_plan` and `execution_plan`, which only sort for printing.
- `get_active_tasks` and `get_execution_history`: they return copies of fields, which the model reads directly.
- The keys `title`, `execution_order`, `execution_history` and `skip_isolated_nodes` that `print_execution_plan` adds to the snapshot: output only.
- Task bodies that call other tasks or change the graph: a body is its outcome. The scheduler's termination and readiness facts are for a fixed graph: `ExecuteDag` may not change the plan.
- Arguments passed to a task, and the `task` decorator's two call shapes: both are thin wrappers. The decorator builds a task with the same arguments as `NewTask`.
- `update_wrapper`'s copying of attributes onto the task.
- The `from e` chaining of the RuntimeError a failing task raises: the model keeps its message only.
- `Paths.ReprDeterminesNames`: names containing a comma make the text ambiguous. `Path.__repr__` formats the bare names, with no quoting.
- `Constraints.Quote`: a name is always wrapped in single quotes, with nothing escaped. Python's `repr` uses double quotes for a string containing `'` and no `"`, and escapes backslashes and non-printable characters. `Constraints.SetRepr` inherits this, so the printed allow-list differs from Python's for such names.
- Allow-lists are sequences standing for Python sets, and the model does not require them to be free of repeats. A list with a repeated name prints that name twice, which a Python set cannot do; membership, which is all the checks use, is unaffected.
- `Violation.OutdegreeReason`, `Violation.IndegreeReason`, `Violation.IncomingAllowReason`, `Violation.HandlerLabelsBrokenRule`: these are stated only for task names and allow-list entries that avoid the keywords. A name such as `allowed` can make the classifier choose another label, as the source gives it no protection.
- `Violation.GraphvizHasTwelveLines`: it is stated only for names without a newline. A newline in a name splits one line into two.
- The `except` branch of `_output_graphviz`: in the model, building the DOT text cannot fail.
- The `'Unknown error'` default in the status loop: every failed event the registry writes has an error.
- Lower-casing is ASCII only, which covers every keyword the classifier tests.
- Constraints truthiness: `not caller_instance.constraints` is read as `constraints is None`, because a pydantic model instance is always true. Likewise, every `Task` is true.
- `_handle_constraint_violation`'s handler call is the DOT report returned by `AddRuntimeDependency`; the handler's two `[VIOLATION]` prints are left out.
- `add_runtime_dependency` with no caller instance: the source always passes one from `Path`, so the "no instance" fallback of the incoming allow-list check (`caller_task`) is not modelled.
