/**
 * The pure half of tasks.py: what a task is, how its base name and its unique
 * name are derived, and the metadata it registers with. A task's function is
 * kept abstract as the outcome its body has: a return value or a raised error.
 */
module TaskIdentity {
  import opened Wrappers
  import opened Strings
  import opened Constraints

  /** A task's return value, kept abstract as its text. */
  type Value = string

  /** The exceptions the model distinguishes; str(e) is ErrorMessage(e). */
  datatype TaskError =
    | Violation(violation: ConstraintViolationError)
    | Runtime(message: string)
    | Other(kind: string, message: string)

  function ErrorMessage(e: TaskError): string
  {
    match e
    case Violation(v) => ErrorText(v)
    case Runtime(m) => m
    case Other(_, m) => m
  }

  /** What calling the wrapped function does. */
  datatype Body = Returns(value: Value) | Raises(error: TaskError)

  /**
   * The wrapped callable: its `__name__` if it has one, the name of its type,
   * and the outcome of its body.
   */
  datatype Callable = Callable(dunderName: Option<string>, typeName: string, body: Body)

  datatype Task = Task(
    name: string,
    baseName: string,
    instanceHash: string,
    description: Option<string>,
    constraints: Option<Constraints>,
    fn: Callable)

  /** The base name: an explicit non-empty name, else `fn.__name__`, else `type(fn).__name__`. */
  function BaseName(explicit: Option<string>, fn: Callable): string
  {
    if explicit.Some? && explicit.value != "" then explicit.value
    else if fn.dunderName.Some? then fn.dunderName.value
    else fn.typeName
  }

  predicate LowerHexDigit(c: char)
  {
    '0' <= c <= '9' || 'a' <= c <= 'f'
  }

  /**
   * What `_generate_unique_hash` returns: the first eight characters of a
   * SHA-256 hexdigest. The digest itself is an input of the model.
   */
  predicate IsInstanceHash(h: string)
  {
    |h| == 8 && forall i :: 0 <= i < |h| ==> LowerHexDigit(h[i])
  }

  function UniqueName(baseName: string, instanceHash: string): string
  {
    baseName + "_" + instanceHash
  }

  /** The task `Task(fn, name, description, constraints)` builds, given the hash it draws. */
  function NewTaskValue(fn: Callable, name: Option<string>, description: Option<string>,
                        constraints: Option<Constraints>, instanceHash: string): (t: Task)
    requires IsInstanceHash(instanceHash)
  {
    var base := BaseName(name, fn);
    Task(UniqueName(base, instanceHash), base, instanceHash, description, constraints, fn)
  }

  /** The metadata dict `_register_in_registry` passes along. */
  datatype TaskMetadata = TaskMetadata(
    description: Option<string>,
    hasConstraints: bool,
    baseName: string,
    instanceHash: string,
    uniqueName: string)

  function MetadataOf(t: Task): TaskMetadata
  {
    TaskMetadata(t.description, t.constraints.Some?, t.baseName, t.instanceHash, t.name)
  }

  // ---------------------------------------------------------------------------
  // Properties of the derived names

  /** Which name wins: the explicit one when it is non-empty, then `__name__`, then the type's name. */
  lemma BaseNamePriority(explicit: Option<string>, fn: Callable)
    ensures explicit.Some? && explicit.value != "" ==> BaseName(explicit, fn) == explicit.value
    ensures (explicit.None? || explicit.value == "") && fn.dunderName.Some? ==> BaseName(explicit, fn) == fn.dunderName.value
    ensures (explicit.None? || explicit.value == "") && fn.dunderName.None? ==> BaseName(explicit, fn) == fn.typeName
  {
  }

  lemma {:induction false} HashHasNoUnderscore(h: string)
    requires IsInstanceHash(h)
    ensures '_' !in h
  {
  }

  /**
   * The last `_` of a unique name is the one put after the base name, so
   * cutting there gives the base name and the hash back.
   */
  lemma {:induction false} UniqueNameSplits(baseName: string, h: string)
    requires IsInstanceHash(h)
    ensures var n := UniqueName(baseName, h);
            '_' in n && LastIndexOf(n, '_') == |baseName| &&
            n[..LastIndexOf(n, '_')] == baseName && n[LastIndexOf(n, '_') + 1..] == h
  {
    var n := UniqueName(baseName, h);
    HashHasNoUnderscore(h);
    assert n[|baseName|] == '_';
    assert n[|baseName| + 1..] == h;
    assert n[..|baseName|] == baseName;
  }

  /**
   * With hashes of the fixed length, the unique name determines both the base
   * name and the hash: tasks drawing different hashes get different names.
   */
  lemma {:induction false} UniqueNameInjective(b1: string, h1: string, b2: string, h2: string)
    requires IsInstanceHash(h1) && IsInstanceHash(h2)
    requires UniqueName(b1, h1) == UniqueName(b2, h2)
    ensures b1 == b2 && h1 == h2
  {
    UniqueNameSplits(b1, h1);
    UniqueNameSplits(b2, h2);
  }

  /** The registered metadata records the task's names and whether it has constraints. */
  lemma MetadataRecordsTask(fn: Callable, name: Option<string>, description: Option<string>,
                            constraints: Option<Constraints>, h: string)
    requires IsInstanceHash(h)
    ensures var t := NewTaskValue(fn, name, description, constraints, h);
            var m := MetadataOf(t);
            m.hasConstraints == constraints.Some? && m.baseName == BaseName(name, fn) &&
            m.instanceHash == h && m.uniqueName == t.name == BaseName(name, fn) + "_" + h &&
            m.description == description
  {
  }
}
