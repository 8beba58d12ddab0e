/**
 * The value types of constraints.py: the limits and allow-lists a task may
 * declare on its edges, and the error raised when adding an edge would break
 * one of them.
 */
module Constraints {
  import opened Wrappers
  import opened Strings

  /**
   * ConstraintViolationError(message, constraint_type, task_name): the task
   * whose constraint is violated, which side of it ("outgoing_edges" or
   * "incoming_edges") and the detailed message.
   */
  datatype ConstraintViolationError = ConstraintViolationError(message: string, constraintType: string, taskName: string)

  const OutgoingEdges: string := "outgoing_edges"
  const IncomingEdges: string := "incoming_edges"

  /** str(error): the text the exception is constructed with. */
  function ErrorText(e: ConstraintViolationError): string
  {
    Concat(["Constraint violation in task '", e.taskName, "' (", e.constraintType, "): ", e.message])
  }

  /**
   * Constraints on one task: how many dependents it may have and which base
   * names it may call (outgoing), how many dependencies it may have and which
   * base names may call it (incoming). An absent limit is unlimited and an
   * empty allow-list is unrestricted. An allow-list is the Python set's
   * elements in its iteration order, which is the order str(set) prints them.
   */
  datatype Constraints = Constraints(
    limitOutdegree: Option<nat>,
    allowOutgoingToNames: seq<string>,
    limitIndegree: Option<nat>,
    allowIncomingFromNames: seq<string>)

  /** A pydantic validation error: the fields whose `ge=0` bound failed, in declaration order. */
  datatype ValidationError = ValidationError(fields: seq<string>)

  predicate NonNegative(limit: Option<int>)
  {
    limit.None? || limit.value >= 0
  }

  function AsLimit(limit: Option<int>): Option<nat>
    requires NonNegative(limit)
  {
    if limit.None? then None else Some(limit.value as nat)
  }

  /**
   * Constraints(limit_outdegree=…, …): pydantic accepts absent limits and
   * limits of at least zero and rejects the rest, naming every failing field.
   */
  function NewConstraints(limitOutdegree: Option<int>, allowOutgoingToNames: seq<string>,
                          limitIndegree: Option<int>, allowIncomingFromNames: seq<string>): (r: Result<Constraints, ValidationError>)
  {
    if NonNegative(limitOutdegree) && NonNegative(limitIndegree) then
      Ok(Constraints(AsLimit(limitOutdegree), allowOutgoingToNames, AsLimit(limitIndegree), allowIncomingFromNames))
    else
      Err(ValidationError((if NonNegative(limitOutdegree) then [] else ["limit_outdegree"]) +
                          (if NonNegative(limitIndegree) then [] else ["limit_indegree"])))
  }

  /** The defaults: no limit and both allow-sets empty. */
  const NoConstraints: Constraints := Constraints(None, [], None, [])

  /** The limit a constructed value carries, read back as the integer it was given. */
  function LimitValue(limit: Option<nat>): Option<int>
  {
    if limit.None? then None else Some(limit.value as int)
  }

  /**
   * Construction succeeds exactly when both limits are absent or at least zero;
   * then it keeps every field as given, and otherwise it names each failing field.
   */
  lemma NewConstraintsValidates(limitOutdegree: Option<int>, allowOut: seq<string>,
                                limitIndegree: Option<int>, allowIn: seq<string>)
    ensures var r := NewConstraints(limitOutdegree, allowOut, limitIndegree, allowIn);
            (r.Ok? <==> NonNegative(limitOutdegree) && NonNegative(limitIndegree)) &&
            (r.Ok? ==> LimitValue(r.value.limitOutdegree) == limitOutdegree &&
                       LimitValue(r.value.limitIndegree) == limitIndegree &&
                       r.value.allowOutgoingToNames == allowOut &&
                       r.value.allowIncomingFromNames == allowIn) &&
            (r.Err? ==> ("limit_outdegree" in r.error.fields <==> !NonNegative(limitOutdegree)) &&
                        ("limit_indegree" in r.error.fields <==> !NonNegative(limitIndegree)) &&
                        1 <= |r.error.fields| <= 2)
  {
  }

  /** The defaults come from constructing with no arguments. */
  lemma DefaultsConstruct()
    ensures NewConstraints(None, [], None, []) == Ok(NoConstraints)
  {
  }

  // ---------------------------------------------------------------------------
  // str(set) of an allow-list

  /** repr(name) for a name without quotes or backslashes. */
  function Quote(name: string): string
  {
    Concat(["'", name, "'"])
  }

  /** ", ".join(repr(n) for n in names). */
  function QuotedList(names: seq<string>): string
  {
    if names == [] then []
    else if |names| == 1 then Quote(names[0])
    else Concat([QuotedList(names[..|names| - 1]), ", ", Quote(names[|names| - 1])])
  }

  /** str(s) of a Python set of strings listed in iteration order. */
  function SetRepr(names: seq<string>): string
  {
    if names == [] then "set()" else Concat(["{", QuotedList(names), "}"])
  }

  /** A lower-case word: only the letters a to z. */
  predicate Word(k: string)
  {
    |k| > 0 && forall i :: 0 <= i < |k| ==> 'a' <= k[i] <= 'z'
  }

  lemma {:induction false} WordAvoids(k: string, c: char)
    requires Word(k) && !('a' <= c <= 'z')
    ensures c !in k
  {
  }

  /** Free of a word after lower-casing. */
  predicate Free(s: string, k: string)
  {
    !Contains(Lower(s), k)
  }

  /** A character that is not a letter in either case. */
  predicate Separator(c: char)
  {
    !('a' <= c <= 'z') && !('A' <= c <= 'Z')
  }

  /** The seam before piece i has a separator on one side. */
  predicate SeparatedSeam(parts: seq<string>, i: int)
    requires 0 < i < |parts|
  {
    (|parts[i]| > 0 && Separator(parts[i][0])) ||
    (|parts[i - 1]| > 0 && Separator(parts[i - 1][|parts[i - 1]| - 1]))
  }

  /** Pieces free of a word, glued at separators, give a string free of the word. */
  lemma {:induction false} FreePieces(parts: seq<string>, k: string)
    requires Word(k)
    requires forall i :: 0 <= i < |parts| ==> Free(parts[i], k)
    requires forall i :: 0 < i < |parts| ==> SeparatedSeam(parts, i)
    ensures Free(Concat(parts), k)
  {
    LowerOfConcat(parts);
    var lp := LowerAll(parts);
    forall i | 0 < i < |lp|
      ensures GuardedSeam(lp, k, i)
    {
      assert SeparatedSeam(parts, i);
      if |parts[i]| > 0 && Separator(parts[i][0]) {
        assert lp[i][0] == parts[i][0];
        WordAvoids(k, parts[i][0]);
      } else {
        var q := parts[i - 1];
        assert lp[i - 1][|q| - 1] == q[|q| - 1];
        WordAvoids(k, q[|q| - 1]);
      }
    }
    GlueAll(lp, k);
  }

  /** str(n) has no letters, so it is free of every word. */
  lemma NumberFree(n: nat, k: string)
    requires Word(k)
    ensures Free(NatToString(n), k)
  {
    NatToStringDigits(n);
    LowerOfLower(NatToString(n));
    NatToStringHasNoWord(n, k);
  }

  /** An occurrence of a lower-case keyword survives lower-casing. */
  lemma {:induction false} LowerOccurs(s: string, k: string, j: int)
    requires OccursAt(s, k, j) && NoUpper(k)
    ensures OccursAt(Lower(s), k, j)
  {
    var found := Lower(s)[j..j + |k|];
    forall t | 0 <= t < |k| ensures found[t] == k[t] {
      assert s[j..j + |k|][t] == k[t];
      assert s[j + t] == k[t];
    }
    assert found == k;
  }

  /** A keyword at a known place in one piece occurs in the lower-cased concatenation. */
  lemma {:induction false} PieceHas(parts: seq<string>, i: int, k: string, j: int)
    requires 0 <= i < |parts| && OccursAt(parts[i], k, j) && NoUpper(k)
    ensures Contains(Lower(Concat(parts)), k)
  {
    LowerOccurs(parts[i], k, j);
    OccurrenceIsContained(Lower(parts[i]), k, j);
    PieceContains(parts, i, k);
  }

  lemma {:induction false} PieceContains(parts: seq<string>, i: int, k: string)
    requires 0 <= i < |parts| && Contains(Lower(parts[i]), k)
    ensures Contains(Lower(Concat(parts)), k)
  {
    LowerOfConcat(parts);
    ContainsPiece(LowerAll(parts), i, k);
  }

  lemma {:induction false} QuoteFree(name: string, k: string)
    requires Word(k) && Free(name, k)
    ensures Free(Quote(name), k)
    ensures |Lower(Quote(name))| > 0 && Lower(Quote(name))[0] == '\''
    ensures Lower(Quote(name))[|Lower(Quote(name))| - 1] == '\''
  {
    var parts := ["'", name, "'"];
    LowerOfConcat(parts);
    var lp := LowerAll(parts);
    WordAvoids(k, '\'');
    assert lp[0] == "'" && lp[2] == "'";
    AbsentChar("'", k, 0);
    assert GuardedSeam(lp, k, 1) && GuardedSeam(lp, k, 2);
    GlueAll(lp, k);
    SeqFirst(lp);
    ConcatLast(lp);
  }

  /** An allow-list whose names are free of a word prints free of it. */
  lemma {:induction false} QuotedListFree(names: seq<string>, k: string)
    requires Word(k) && |names| > 0
    requires forall i :: 0 <= i < |names| ==> Free(names[i], k)
    ensures Free(QuotedList(names), k)
    ensures |Lower(QuotedList(names))| > 0 && Lower(QuotedList(names))[0] == '\''
    ensures Lower(QuotedList(names))[|Lower(QuotedList(names))| - 1] == '\''
  {
    if |names| == 1 {
      QuoteFree(names[0], k);
    } else {
      var init := names[..|names| - 1];
      assert forall i :: 0 <= i < |init| ==> Free(init[i], k) by {
        forall i | 0 <= i < |init| ensures Free(init[i], k) {
          assert init[i] == names[i];
        }
      }
      QuotedListFree(init, k);
      QuoteFree(names[|names| - 1], k);
      var parts := [QuotedList(init), ", ", Quote(names[|names| - 1])];
      LowerOfConcat(parts);
      var lp := LowerAll(parts);
      WordAvoids(k, '\'');
      WordAvoids(k, ',');
      assert lp[1] == ", ";
      AbsentChar(", ", k, 0);
      assert GuardedSeam(lp, k, 1) && GuardedSeam(lp, k, 2);
      GlueAll(lp, k);
      SeqFirst(lp);
      ConcatLast(lp);
    }
  }

  lemma {:induction false} SetReprFree(names: seq<string>, k: string)
    requires Word(k) && |names| > 0
    requires forall i :: 0 <= i < |names| ==> Free(names[i], k)
    ensures Free(SetRepr(names), k)
    ensures |Lower(SetRepr(names))| > 0 && Lower(SetRepr(names))[0] == '{'
  {
    QuotedListFree(names, k);
    var parts := ["{", QuotedList(names), "}"];
    LowerOfConcat(parts);
    var lp := LowerAll(parts);
    WordAvoids(k, '{');
    WordAvoids(k, '}');
    WordAvoids(k, '\'');
    AbsentChar("{", k, 0);
    AbsentChar("}", k, 0);
    assert lp[0] == "{" && lp[2] == "}";
    assert GuardedSeam(lp, k, 1) && GuardedSeam(lp, k, 2);
    GlueAll(lp, k);
    SeqFirst(lp);
  }
}
