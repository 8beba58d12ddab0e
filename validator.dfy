/**
 * ConstraintValidator from constraints.py: before an edge caller -> callee is
 * added, check the caller's outgoing constraints and then the callee's
 * incoming ones against the current graph and the registered tasks. The
 * checks only read; a violated check is reported as the error it raises.
 */
module ConstraintValidator {
  import opened Wrappers
  import opened Strings
  import opened Constraints
  import opened TaskIdentity
  import opened Dag

  // ---------------------------------------------------------------------------
  // The four messages

  function OutdegreeMessage(callerTask: string, calleeTask: string, current: nat, limit: nat): string
  {
    Concat(["Cannot add dependency ", callerTask, " -> ", calleeTask, ". Outdegree limit reached: ",
            NatToString(current), " >= ", NatToString(limit)])
  }

  function OutgoingNotAllowedMessage(callerTask: string, calleeTask: string, baseName: string, allowed: seq<string>): string
  {
    Concat(["Cannot add dependency ", callerTask, " -> ", calleeTask, ". Target task base name '", baseName,
            "' not in allowed outgoing task names ", SetRepr(allowed)])
  }

  function IndegreeMessage(callerTask: string, calleeTask: string, current: nat, limit: nat): string
  {
    Concat(["Cannot add dependency ", callerTask, " -> ", calleeTask, ". Indegree limit reached: ",
            NatToString(current), " >= ", NatToString(limit)])
  }

  function IncomingNotAllowedMessage(callerTask: string, calleeTask: string, baseName: string, allowed: seq<string>): string
  {
    Concat(["Cannot add dependency ", callerTask, " -> ", calleeTask, ". Source task base name '", baseName,
            "' not in allowed incoming task names ", SetRepr(allowed)])
  }

  // ---------------------------------------------------------------------------
  // The checks

  /** The base name the allow-lists compare: the registered task's, or the raw name when unregistered. */
  function RegisteredBaseName(tasks: map<string, Task>, taskName: string): string
  {
    if taskName in tasks then tasks[taskName].baseName else taskName
  }

  /** validate_outgoing_edge_constraints: the caller's outdegree limit, then its allow-list. */
  function ValidateOutgoing(nodes: map<string, DAGNode>, tasks: map<string, Task>,
                            callerTask: string, calleeTask: string, caller: Task): Outcome<ConstraintViolationError>
  {
    if caller.constraints.None? then Pass
    else
      var c := caller.constraints.value;
      var current := |DependentsOf(nodes, callerTask)|;
      if c.limitOutdegree.Some? && current >= c.limitOutdegree.value then
        Fail(ConstraintViolationError(OutdegreeMessage(callerTask, calleeTask, current, c.limitOutdegree.value),
                                      OutgoingEdges, callerTask))
      else
        var base := RegisteredBaseName(tasks, calleeTask);
        if |c.allowOutgoingToNames| > 0 && base !in c.allowOutgoingToNames then
          Fail(ConstraintViolationError(OutgoingNotAllowedMessage(callerTask, calleeTask, base, c.allowOutgoingToNames),
                                        OutgoingEdges, callerTask))
        else Pass
  }

  /** validate_incoming_edge_constraints: the registered callee's indegree limit, then its allow-list. */
  function ValidateIncoming(nodes: map<string, DAGNode>, tasks: map<string, Task>,
                            callerTask: string, calleeTask: string, caller: Task): Outcome<ConstraintViolationError>
  {
    if calleeTask !in tasks || tasks[calleeTask].constraints.None? then Pass
    else
      var c := tasks[calleeTask].constraints.value;
      var current := |DepsOf(nodes, calleeTask)|;
      if c.limitIndegree.Some? && current >= c.limitIndegree.value then
        Fail(ConstraintViolationError(IndegreeMessage(callerTask, calleeTask, current, c.limitIndegree.value),
                                      IncomingEdges, calleeTask))
      else
        var base := caller.baseName;
        if |c.allowIncomingFromNames| > 0 && base !in c.allowIncomingFromNames then
          Fail(ConstraintViolationError(IncomingNotAllowedMessage(callerTask, calleeTask, base, c.allowIncomingFromNames),
                                        IncomingEdges, calleeTask))
        else Pass
  }

  /** validate_dependency: the outgoing checks first, then the incoming ones. */
  function ValidateDependency(nodes: map<string, DAGNode>, tasks: map<string, Task>,
                              callerTask: string, calleeTask: string, caller: Task): Outcome<ConstraintViolationError>
  {
    var out := ValidateOutgoing(nodes, tasks, callerTask, calleeTask, caller);
    if out.Fail? then out else ValidateIncoming(nodes, tasks, callerTask, calleeTask, caller)
  }

  // ---------------------------------------------------------------------------
  // What the checks decide

  /** The caller's outgoing rule is broken: its limit is reached, or the callee's base name is not allowed. */
  predicate OutgoingBroken(nodes: map<string, DAGNode>, tasks: map<string, Task>,
                           callerTask: string, calleeTask: string, c: Constraints)
  {
    (c.limitOutdegree.Some? && |DependentsOf(nodes, callerTask)| >= c.limitOutdegree.value) ||
    (|c.allowOutgoingToNames| > 0 && RegisteredBaseName(tasks, calleeTask) !in c.allowOutgoingToNames)
  }

  predicate IncomingBroken(nodes: map<string, DAGNode>, calleeTask: string, caller: Task, c: Constraints)
  {
    (c.limitIndegree.Some? && |DepsOf(nodes, calleeTask)| >= c.limitIndegree.value) ||
    (|c.allowIncomingFromNames| > 0 && caller.baseName !in c.allowIncomingFromNames)
  }

  /**
   * The outgoing check fails exactly when the caller has constraints and one
   * of its outgoing rules is broken; the error is of type "outgoing_edges",
   * names the caller, and reports the limit when the limit is what is broken.
   */
  lemma OutgoingVerdict(nodes: map<string, DAGNode>, tasks: map<string, Task>,
                        callerTask: string, calleeTask: string, caller: Task)
    ensures var r := ValidateOutgoing(nodes, tasks, callerTask, calleeTask, caller);
            (r.Fail? <==> caller.constraints.Some? && OutgoingBroken(nodes, tasks, callerTask, calleeTask, caller.constraints.value)) &&
            (r.Fail? ==> r.error.constraintType == OutgoingEdges && r.error.taskName == callerTask) &&
            (r.Fail? && caller.constraints.value.limitOutdegree.Some? &&
             |DependentsOf(nodes, callerTask)| >= caller.constraints.value.limitOutdegree.value ==>
               r.error.message == OutdegreeMessage(callerTask, calleeTask, |DependentsOf(nodes, callerTask)|,
                                                   caller.constraints.value.limitOutdegree.value))
  {
  }

  /**
   * The incoming check fails exactly when the callee is registered with
   * constraints and one of its incoming rules is broken; the error is of type
   * "incoming_edges" and names the callee.
   */
  lemma IncomingVerdict(nodes: map<string, DAGNode>, tasks: map<string, Task>,
                        callerTask: string, calleeTask: string, caller: Task)
    ensures var r := ValidateIncoming(nodes, tasks, callerTask, calleeTask, caller);
            (r.Fail? <==> calleeTask in tasks && tasks[calleeTask].constraints.Some? &&
                          IncomingBroken(nodes, calleeTask, caller, tasks[calleeTask].constraints.value)) &&
            (r.Fail? ==> r.error.constraintType == IncomingEdges && r.error.taskName == calleeTask)
  {
  }

  /** A dependency passes exactly when both sides pass; when both fail, the outgoing error is the one raised. */
  lemma DependencyVerdict(nodes: map<string, DAGNode>, tasks: map<string, Task>,
                          callerTask: string, calleeTask: string, caller: Task)
    ensures var out := ValidateOutgoing(nodes, tasks, callerTask, calleeTask, caller);
            var inc := ValidateIncoming(nodes, tasks, callerTask, calleeTask, caller);
            var r := ValidateDependency(nodes, tasks, callerTask, calleeTask, caller);
            (r.Pass? <==> out.Pass? && inc.Pass?) &&
            (out.Fail? ==> r == out) &&
            (out.Pass? && inc.Fail? ==> r == inc)
  {
  }

  /** A limit of zero rejects every outgoing edge of the task. */
  lemma ZeroOutdegreeRejectsAll(nodes: map<string, DAGNode>, tasks: map<string, Task>,
                                callerTask: string, calleeTask: string, caller: Task)
    requires caller.constraints.Some? && caller.constraints.value.limitOutdegree == Some(0)
    ensures ValidateDependency(nodes, tasks, callerTask, calleeTask, caller).Fail?
    ensures ValidateDependency(nodes, tasks, callerTask, calleeTask, caller).error.constraintType == OutgoingEdges
  {
  }

  lemma {:induction false} AddOneCard(A: set<string>, x: string)
    ensures |A + {x}| <= |A| + 1
  {
    if x in A {
      assert A + {x} == A;
    } else {
      assert |A + {x}| == |A| + 1;
    }
  }

  /**
   * An edge the outgoing check accepts leaves the caller within its limit:
   * after add_dependency(callee, caller) the caller has at most the limit's
   * number of dependents.
   */
  lemma {:induction false} OutdegreeLimitKept(s0: seq<string>, n0: map<string, DAGNode>, tasks: map<string, Task>,
                                              callerTask: string, calleeTask: string, caller: Task,
                                              s: seq<string>, r: map<string, DAGNode>)
    requires caller.constraints.Some? && caller.constraints.value.limitOutdegree.Some?
    requires ValidateOutgoing(n0, tasks, callerTask, calleeTask, caller).Pass?
    requires DependencyAdded(s0, n0, calleeTask, callerTask, s, r)
    ensures |DependentsOf(r, callerTask)| <= caller.constraints.value.limitOutdegree.value
  {
    assert callerTask in r;
    assert DependentsOf(r, callerTask) == DependentsOf(n0, callerTask) + {calleeTask};
    AddOneCard(DependentsOf(n0, callerTask), calleeTask);
  }

  /** Likewise an edge the incoming check accepts leaves a registered callee within its indegree limit. */
  lemma {:induction false} IndegreeLimitKept(s0: seq<string>, n0: map<string, DAGNode>, tasks: map<string, Task>,
                                             callerTask: string, calleeTask: string, caller: Task,
                                             s: seq<string>, r: map<string, DAGNode>)
    requires calleeTask in tasks && tasks[calleeTask].constraints.Some?
    requires tasks[calleeTask].constraints.value.limitIndegree.Some?
    requires ValidateIncoming(n0, tasks, callerTask, calleeTask, caller).Pass?
    requires DependencyAdded(s0, n0, calleeTask, callerTask, s, r)
    ensures |DepsOf(r, calleeTask)| <= tasks[calleeTask].constraints.value.limitIndegree.value
  {
    assert calleeTask in r;
    assert DepsOf(r, calleeTask) == DepsOf(n0, calleeTask) + {callerTask};
    AddOneCard(DepsOf(n0, calleeTask), callerTask);
  }

  /**
   * With an outdegree limit of one, once the caller has an edge every further
   * edge from it is rejected, whatever its target.
   */
  lemma {:induction false} OutdegreeOneAllowsOneEdge(s0: seq<string>, n0: map<string, DAGNode>, tasks: map<string, Task>,
                                                     callerTask: string, firstCallee: string, nextCallee: string,
                                                     caller: Task, s: seq<string>, r: map<string, DAGNode>)
    requires caller.constraints.Some? && caller.constraints.value.limitOutdegree == Some(1)
    requires DependencyAdded(s0, n0, firstCallee, callerTask, s, r)
    ensures ValidateOutgoing(r, tasks, callerTask, nextCallee, caller).Fail?
  {
    assert callerTask in r;
    assert firstCallee in DependentsOf(r, callerTask);
  }

  /** An allow-list rejects exactly the base names it does not hold; an empty one rejects none. */
  lemma AllowListDecides(nodes: map<string, DAGNode>, tasks: map<string, Task>,
                         callerTask: string, calleeTask: string, caller: Task)
    requires caller.constraints.Some?
    requires caller.constraints.value.limitOutdegree.None?
    ensures var allowed := caller.constraints.value.allowOutgoingToNames;
            ValidateOutgoing(nodes, tasks, callerTask, calleeTask, caller).Fail? <==>
              |allowed| > 0 && RegisteredBaseName(tasks, calleeTask) !in allowed
  {
  }

  /**
   * The checks only look up the sets of the two endpoints, so adding nodes
   * first (as add_runtime_dependency does) does not change the verdict.
   */
  lemma {:induction false} ValidationIgnoresNewNodes(nodes: map<string, DAGNode>, name: string, tasks: map<string, Task>,
                                                     callerTask: string, calleeTask: string, caller: Task)
    requires forall n :: n in nodes ==> nodes[n].taskName == n
    ensures ValidateDependency(WithTask(nodes, name), tasks, callerTask, calleeTask, caller)
            == ValidateDependency(nodes, tasks, callerTask, calleeTask, caller)
  {
    WithTaskLookups(nodes, name);
    assert DependentsOf(WithTask(nodes, name), callerTask) == DependentsOf(nodes, callerTask);
    assert DepsOf(WithTask(nodes, name), calleeTask) == DepsOf(nodes, calleeTask);
  }
}
