/**
 * An explicit caller-callee relationship (src/latch/orchestration/path.py):
 * creating a path records the runtime dependency in the registry.
 */
module Paths {
  import opened Wrappers
  import opened Strings
  import opened Constraints
  import opened TaskIdentity
  import opened Dag
  import opened ConstraintValidator
  import opened Violation
  import opened Registry

  datatype Path = Path(fromTask: Task, toTask: Task)

  /**
   * Path(from_task, to_task): registers from_task -> to_task as a runtime
   * dependency. A constraint violation propagates out of the constructor, so
   * no path is returned; the graph then holds only the touched nodes.
   */
  method NewPath(registry: TaskRegistry, fromTask: Task, toTask: Task)
    returns (r: Result<Path, ConstraintViolationError>, report: Option<string>)
    requires registry.Valid()
    modifies registry.plan
    ensures registry.Valid()
    ensures var v := ValidateDependency(old(registry.plan.nodes), registry.tasks, fromTask.name, toTask.name, fromTask);
            (r.Ok? <==> v.Pass?) && (r.Ok? ==> r.value == Path(fromTask, toTask)) && (r.Err? ==> r.error == v.error)
    ensures r.Err? ==>
              registry.plan.nodes == TouchedNodes(old(registry.plan.nodes), registry.tasks, fromTask.name, toTask.name) &&
              report == Some(GenerateGraphviz(fromTask.name, toTask.name, ErrorText(r.error),
                                              registry.DisplayName(fromTask.name), registry.DisplayName(toTask.name)))
    ensures r.Ok? ==>
              report == None &&
              DependencyAdded(TouchedNames(old(registry.plan.names), old(registry.plan.nodes), registry.tasks,
                                           fromTask.name, toTask.name),
                              TouchedNodes(old(registry.plan.nodes), registry.tasks, fromTask.name, toTask.name),
                              toTask.name, fromTask.name, registry.plan.names, registry.plan.nodes)
  {
    var outcome;
    outcome, report := registry.AddRuntimeDependency(fromTask.name, toTask.name, fromTask);
    if outcome.Fail? {
      r := Err(outcome.error);
    } else {
      r := Ok(Path(fromTask, toTask));
    }
  }

  /** repr(path). */
  function Repr(p: Path): string
  {
    "Path(from=" + p.fromTask.name + ", to=" + p.toTask.name + ")"
  }

  lemma {:induction false} ReprPieces(p: Path)
    ensures var s := Repr(p); var f := p.fromTask.name;
            |s| == 16 + |f| + |p.toTask.name| &&
            s[10..] == f + [','] + (" to=" + p.toTask.name + ")") &&
            s[15 + |f|..|s| - 1] == p.toTask.name
  {
    var s := Repr(p);
    var f := p.fromTask.name;
    var t := p.toTask.name;
    assert s == "Path(from=" + (f + [','] + (" to=" + t + ")"));
    assert s[10..] == f + [','] + (" to=" + t + ")");
    assert s == ("Path(from=" + f + ", to=") + t + ")";
  }

  /**
   * When the calling task's name has no comma, the text shows both names
   * unambiguously: equal texts come from paths between equally named tasks.
   */
  lemma {:induction false} ReprDeterminesNames(p: Path, q: Path)
    requires ',' !in p.fromTask.name && ',' !in q.fromTask.name
    requires Repr(p) == Repr(q)
    ensures p.fromTask.name == q.fromTask.name && p.toTask.name == q.toTask.name
  {
    var s := Repr(p);
    ReprPieces(p);
    ReprPieces(q);
    var f, g := p.fromTask.name, q.fromTask.name;
    SplitAround(f, " to=" + p.toTask.name + ")", ',');
    SplitAround(g, " to=" + q.toTask.name + ")", ',');
    SplitNoSeparator(f, ',');
    SplitNoSeparator(g, ',');
    assert Split(s[10..], ',')[0] == f;
    assert Split(s[10..], ',')[0] == g;
  }
}
