/**
 * ConstraintViolationHandler from violation.py: classify an error message by
 * the keywords it contains, and render the rejected edge as a DOT graph (the
 * Graphviz language). The display-name callback the handler stores is applied
 * by the caller; the two display names arrive as arguments.
 */
module Violation {
  import opened Strings
  import opened Wrappers
  import opened Constraints
  import opened TaskIdentity
  import opened ConstraintValidator
  import opened Dag

  const OutgoingNotAllowed: string := "OUTGOING NOT ALLOWED"
  const IncomingNotAllowed: string := "INCOMING NOT ALLOWED"
  const OutgoingLimitExceeded: string := "OUTGOING LIMIT EXCEEDED"
  const IncomingLimitExceeded: string := "INCOMING LIMIT EXCEEDED"
  const GenericViolation: string := "CONSTRAINT VIOLATION"

  /** _extract_violation_reason: keyword tests on the lower-cased message, in priority order. */
  function ExtractViolationReason(errorMessage: string): string
  {
    var lower := Lower(errorMessage);
    if Contains(lower, "outgoing") && Contains(lower, "not in allowed") then OutgoingNotAllowed
    else if Contains(lower, "incoming") && Contains(lower, "not in allowed") then IncomingNotAllowed
    else if Contains(lower, "outgoing") && Contains(lower, "limit") then OutgoingLimitExceeded
    else if Contains(lower, "incoming") && Contains(lower, "limit") then IncomingLimitExceeded
    else GenericViolation
  }

  /** The caller is coloured as the offender when the message is about outgoing edges. */
  function CallerColor(errorMessage: string): string
  {
    if Contains(Lower(errorMessage), "outgoing") then "lightcoral" else "lightyellow"
  }

  function CalleeColor(errorMessage: string): string
  {
    if Contains(Lower(errorMessage), "incoming") then "lightcoral" else "lightyellow"
  }

  /** `label="Constraint Violation: <reason>";` */
  function LabelLine(reason: string): string
  {
    Concat(["    label=\"", "Constraint Violation: " + reason, "\";"])
  }

  /** One node: its raw name, labelled with its display name and filled with a colour. */
  function NodeLine(taskName: string, display: string, color: string): string
  {
    Concat(["    \"", taskName, "\" [label=\"", display, "\", fillcolor=", color, "];"])
  }

  /** The rejected edge, red and dashed, labelled with the reason. */
  function EdgeLine(callerTask: string, calleeTask: string, reason: string): string
  {
    Concat(["    \"", callerTask, "\" -> \"", calleeTask,
            "\" [color=red, style=dashed, ", "penwidth=2, label=\"X ", reason, "\"];"])
  }

  /** The lines of the DOT text `_generate_graphviz` builds. */
  function GraphvizLines(callerTask: string, calleeTask: string, errorMessage: string,
                         callerDisplay: string, calleeDisplay: string): seq<string>
  {
    var reason := ExtractViolationReason(errorMessage);
    [ "digraph ConstraintViolation {",
      "    rankdir=LR;",
      "    node [shape=box, style=filled];",
      "    edge [fontsize=10];",
      LabelLine(reason),
      "    labelloc=t;",
      "",
      NodeLine(callerTask, callerDisplay, CallerColor(errorMessage)),
      NodeLine(calleeTask, calleeDisplay, CalleeColor(errorMessage)),
      "",
      EdgeLine(callerTask, calleeTask, reason),
      "}" ]
  }

  /** _generate_graphviz: the lines joined by newlines. */
  function GenerateGraphviz(callerTask: string, calleeTask: string, errorMessage: string,
                            callerDisplay: string, calleeDisplay: string): string
  {
    Join('\n', GraphvizLines(callerTask, calleeTask, errorMessage, callerDisplay, calleeDisplay))
  }

  // ---------------------------------------------------------------------------
  // The DOT text

  lemma ReasonIsOneLine(errorMessage: string)
    ensures '\n' !in ExtractViolationReason(errorMessage)
    ensures '\n' !in CallerColor(errorMessage) && '\n' !in CalleeColor(errorMessage)
  {
  }

  lemma {:induction false} LabelIsOneLine(reason: string)
    requires '\n' !in reason
    ensures '\n' !in LabelLine(reason)
  {
    CharNotInConcat(["    label=\"", "Constraint Violation: " + reason, "\";"], '\n');
  }

  lemma {:induction false} NodeIsOneLine(taskName: string, display: string, color: string)
    requires '\n' !in taskName && '\n' !in display && '\n' !in color
    ensures '\n' !in NodeLine(taskName, display, color)
  {
    CharNotInConcat(["    \"", taskName, "\" [label=\"", display, "\", fillcolor=", color, "];"], '\n');
  }

  lemma {:induction false} EdgeIsOneLine(callerTask: string, calleeTask: string, reason: string)
    requires '\n' !in callerTask && '\n' !in calleeTask && '\n' !in reason
    ensures '\n' !in EdgeLine(callerTask, calleeTask, reason)
  {
    assert Avoids("\" [color=red, style=dashed, ", '\n') && Avoids("penwidth=2, label=\"X ", '\n');
    CharNotInConcat(["    \"", callerTask, "\" -> \"", calleeTask,
                     "\" [color=red, style=dashed, ", "penwidth=2, label=\"X ", reason, "\"];"], '\n');
  }

  /** The fixed lines of the DOT text have no newline in them. */
  lemma FixedLinesAreOneLine()
    ensures '\n' !in "digraph ConstraintViolation {" && '\n' !in "    rankdir=LR;"
    ensures '\n' !in "    node [shape=box, style=filled];" && '\n' !in "    edge [fontsize=10];"
    ensures '\n' !in "    labelloc=t;" && '\n' !in "" && '\n' !in "}"
  {
    assert Avoids("digraph ConstraintViolation {", '\n') && Avoids("    rankdir=LR;", '\n');
    assert Avoids("    node [shape=box, style=filled];", '\n') && Avoids("    edge [fontsize=10];", '\n');
    assert Avoids("    labelloc=t;", '\n');
  }

  /**
   * When no task name or display name contains a newline, the DOT text is
   * exactly the twelve lines: splitting it at newlines gives them back. The
   * first opens the digraph, the last closes it, the two nodes are the raw
   * task names labelled with their display names, and the one edge runs from
   * the caller to the callee, labelled with the reason.
   */
  lemma {:induction false} GraphvizHasTwelveLines(callerTask: string, calleeTask: string, errorMessage: string,
                                                   callerDisplay: string, calleeDisplay: string)
    requires '\n' !in callerTask && '\n' !in calleeTask && '\n' !in callerDisplay && '\n' !in calleeDisplay
    ensures var lines := GraphvizLines(callerTask, calleeTask, errorMessage, callerDisplay, calleeDisplay);
            Split(GenerateGraphviz(callerTask, calleeTask, errorMessage, callerDisplay, calleeDisplay), '\n') == lines &&
            |lines| == 12 && lines[0] == "digraph ConstraintViolation {" && lines[11] == "}" &&
            lines[7] == NodeLine(callerTask, callerDisplay, CallerColor(errorMessage)) &&
            lines[8] == NodeLine(calleeTask, calleeDisplay, CalleeColor(errorMessage)) &&
            lines[10] == EdgeLine(callerTask, calleeTask, ExtractViolationReason(errorMessage))
  {
    var reason := ExtractViolationReason(errorMessage);
    var lines := GraphvizLines(callerTask, calleeTask, errorMessage, callerDisplay, calleeDisplay);
    ReasonIsOneLine(errorMessage);
    LabelIsOneLine(reason);
    NodeIsOneLine(callerTask, callerDisplay, CallerColor(errorMessage));
    NodeIsOneLine(calleeTask, calleeDisplay, CalleeColor(errorMessage));
    EdgeIsOneLine(callerTask, calleeTask, reason);
    FixedLinesAreOneLine();
    SplitJoin(lines, '\n');
  }

  // ---------------------------------------------------------------------------
  // The validator's messages are classified by the rule they come from

  /** The keyword tests that decide each label. */
  lemma ReasonByKeywords(s: string)
    ensures var l := Lower(s);
            (Contains(l, "outgoing") && Contains(l, "not in allowed") ==> ExtractViolationReason(s) == OutgoingNotAllowed) &&
            (!Contains(l, "outgoing") && Contains(l, "incoming") && Contains(l, "not in allowed") ==>
               ExtractViolationReason(s) == IncomingNotAllowed) &&
            (Contains(l, "outgoing") && !Contains(l, "not in allowed") && Contains(l, "limit") ==>
               ExtractViolationReason(s) == OutgoingLimitExceeded) &&
            (!Contains(l, "outgoing") && Contains(l, "incoming") && !Contains(l, "not in allowed") && Contains(l, "limit") ==>
               ExtractViolationReason(s) == IncomingLimitExceeded)
  {
  }

  /** The keywords the classifier tests are lower-case, and three of them are plain words. */
  lemma WordsAreWords()
    ensures Word("outgoing") && Word("incoming") && Word("allowed")
    ensures NoUpper("outgoing") && NoUpper("incoming") && NoUpper("limit") && NoUpper("not in allowed")
  {
  }

  /** Without "allowed" there is no "not in allowed". */
  lemma {:induction false} NoAllowList(s: string)
    requires Free(s, "allowed")
    ensures !Contains(Lower(s), "not in allowed")
  {
    if Contains(Lower(s), "not in allowed") {
      assert OccursAt("not in allowed", "allowed", 7);
      ContainsPart(Lower(s), "not in allowed", "allowed", 7);
    }
  }

  /** The fixed text of str(error) has no "allowed". */
  lemma ErrorFrameWithoutAllowed()
    ensures Free("Constraint violation in task '", "allowed") && Free("' (", "allowed") && Free("): ", "allowed")
    ensures Free(OutgoingEdges, "allowed") && Free(IncomingEdges, "allowed")
  {
    LowerAbsent("Constraint violation in task '", "allowed", 4, 'w', 'W');
    LowerAbsent("' (", "allowed", 4, 'w', 'W');
    LowerAbsent("): ", "allowed", 4, 'w', 'W');
    LowerAbsent(OutgoingEdges, "allowed", 4, 'w', 'W');
    LowerAbsent(IncomingEdges, "allowed", 4, 'w', 'W');
  }

  /** The fixed text of the limit messages has no "allowed". */
  lemma LimitFrameWithoutAllowed()
    ensures Free("Cannot add dependency ", "allowed") && Free(" -> ", "allowed") && Free(" >= ", "allowed")
    ensures Free(". Outdegree limit reached: ", "allowed") && Free(". Indegree limit reached: ", "allowed")
  {
    LowerAbsent("Cannot add dependency ", "allowed", 4, 'w', 'W');
    LowerAbsent(" -> ", "allowed", 4, 'w', 'W');
    LowerAbsent(" >= ", "allowed", 4, 'w', 'W');
    LowerAbsent(". Outdegree limit reached: ", "allowed", 4, 'w', 'W');
    LowerAbsent(". Indegree limit reached: ", "allowed", 4, 'w', 'W');
  }

  /** The fixed text of str(error) for an incoming error has no "outgoing". */
  lemma ErrorFrameWithoutOutgoing()
    ensures Free("Constraint violation in task '", "outgoing") && Free("' (", "outgoing") && Free("): ", "outgoing")
    ensures Free(IncomingEdges, "outgoing")
  {
    LowerAbsent("Constraint violation in task '", "outgoing", 1, 'u', 'U');
    LowerAbsent("' (", "outgoing", 1, 'u', 'U');
    LowerAbsent("): ", "outgoing", 1, 'u', 'U');
    LowerAbsent(IncomingEdges, "outgoing", 1, 'u', 'U');
  }

  /** The fixed text of the incoming messages has no "outgoing". */
  lemma IncomingFrameWithoutOutgoing()
    ensures Free("Cannot add dependency ", "outgoing") && Free(" -> ", "outgoing") && Free(" >= ", "outgoing")
    ensures Free(". Indegree limit reached: ", "outgoing")
    ensures Free(". Source task base name '", "outgoing") && Free("' not in allowed incoming task names ", "outgoing")
  {
    LowerAbsent("Cannot add dependency ", "outgoing", 1, 'u', 'U');
    LowerAbsent(" -> ", "outgoing", 1, 'u', 'U');
    LowerAbsent(" >= ", "outgoing", 1, 'u', 'U');
    IncomingPhrasesWithoutOutgoing();
  }

  lemma IncomingPhrasesWithoutOutgoing()
    ensures Free(". Indegree limit reached: ", "outgoing")
    ensures Free(". Source task base name '", "outgoing") && Free("' not in allowed incoming task names ", "outgoing")
  {
    LowerAbsent(". Indegree limit reached: ", "outgoing", 1, 'u', 'U');
    LowerAbsent(". Source task base name '", "outgoing", 3, 'g', 'G');
    LowerAbsent("' not in allowed incoming task names ", "outgoing", 1, 'u', 'U');
  }

  /** The pieces of str(error) around the message. */
  function OuterPieces(e: ConstraintViolationError): seq<string>
  {
    ["Constraint violation in task '", e.taskName, "' (", e.constraintType, "): ", e.message]
  }

  /** str(error) is free of a word when its task name, type and message are. */
  lemma {:induction false} ErrorTextFree(e: ConstraintViolationError, k: string)
    requires Word(k) && Free("Constraint violation in task '", k) && Free("' (", k) && Free("): ", k)
    requires Free(e.taskName, k) && Free(e.constraintType, k) && Free(e.message, k)
    ensures Free(ErrorText(e), k)
  {
    var parts := OuterPieces(e);
    assert forall i :: 0 <= i < |parts| ==> Free(parts[i], k);
    assert forall i :: 0 < i < |parts| ==> SeparatedSeam(parts, i);
    FreePieces(parts, k);
  }

  /** str(error) contains a keyword its type or its message contains. */
  lemma {:induction false} ErrorTextHas(e: ConstraintViolationError, k: string)
    requires Contains(Lower(e.constraintType), k) || Contains(Lower(e.message), k)
    ensures Contains(Lower(ErrorText(e)), k)
  {
    if Contains(Lower(e.constraintType), k) {
      PieceContains(OuterPieces(e), 3, k);
    } else {
      PieceContains(OuterPieces(e), 5, k);
    }
  }

  /** The pieces of a limit message. */
  function LimitPieces(callerTask: string, calleeTask: string, what: string, current: nat, limit: nat): seq<string>
  {
    ["Cannot add dependency ", callerTask, " -> ", calleeTask, what, NatToString(current), " >= ", NatToString(limit)]
  }

  lemma {:induction false} LimitMessageFree(callerTask: string, calleeTask: string, what: string,
                                            current: nat, limit: nat, k: string)
    requires Word(k) && Free("Cannot add dependency ", k) && Free(" -> ", k) && Free(what, k) && Free(" >= ", k)
    requires |what| > 0 && what[0] == '.' && what[|what| - 1] == ' '
    requires Free(callerTask, k) && Free(calleeTask, k)
    ensures Free(Concat(LimitPieces(callerTask, calleeTask, what, current, limit)), k)
  {
    var parts := LimitPieces(callerTask, calleeTask, what, current, limit);
    NumberFree(current, k);
    NumberFree(limit, k);
    assert forall i :: 0 <= i < |parts| ==> Free(parts[i], k);
    assert forall i :: 0 < i < |parts| ==> SeparatedSeam(parts, i);
    FreePieces(parts, k);
  }

  /** The pieces of an allow-list message. */
  function AllowPieces(callerTask: string, calleeTask: string, what: string, baseName: string,
                       tail: string, allowed: seq<string>): seq<string>
  {
    ["Cannot add dependency ", callerTask, " -> ", calleeTask, what, baseName, tail, SetRepr(allowed)]
  }

  lemma {:induction false} AllowMessageFree(callerTask: string, calleeTask: string, what: string, baseName: string,
                                            tail: string, allowed: seq<string>, k: string)
    requires Word(k) && Free("Cannot add dependency ", k) && Free(" -> ", k) && Free(what, k) && Free(tail, k)
    requires |what| > 0 && what[0] == '.' && what[|what| - 1] == '\''
    requires |tail| > 0 && tail[0] == '\'' && tail[|tail| - 1] == ' '
    requires Free(callerTask, k) && Free(calleeTask, k) && Free(baseName, k) && |allowed| > 0
    requires forall i :: 0 <= i < |allowed| ==> Free(allowed[i], k)
    ensures Free(Concat(AllowPieces(callerTask, calleeTask, what, baseName, tail, allowed)), k)
  {
    var parts := AllowPieces(callerTask, calleeTask, what, baseName, tail, allowed);
    SetReprFree(allowed, k);
    assert forall i :: 0 <= i < |parts| ==> Free(parts[i], k);
    assert forall i :: 0 < i < |parts| ==> SeparatedSeam(parts, i);
    FreePieces(parts, k);
  }

  /** The allow-list messages say "not in allowed". */
  lemma {:induction false} AllowMessageHas(callerTask: string, calleeTask: string, what: string, baseName: string,
                                           tail: string, allowed: seq<string>)
    requires OccursAt(tail, "not in allowed", 2)
    ensures Contains(Lower(Concat(AllowPieces(callerTask, calleeTask, what, baseName, tail, allowed))), "not in allowed")
  {
    WordsAreWords();
    PieceHas(AllowPieces(callerTask, calleeTask, what, baseName, tail, allowed), 6, "not in allowed", 2);
  }

  /** The limit messages say "limit". */
  lemma {:induction false} LimitMessageHas(callerTask: string, calleeTask: string, what: string,
                                           current: nat, limit: nat, j: nat)
    requires OccursAt(what, "limit", j)
    ensures Contains(Lower(Concat(LimitPieces(callerTask, calleeTask, what, current, limit))), "limit")
  {
    WordsAreWords();
    PieceHas(LimitPieces(callerTask, calleeTask, what, current, limit), 4, "limit", j);
  }

  lemma TypesSayTheirSide()
    ensures Contains(Lower(OutgoingEdges), "outgoing") && Contains(Lower(IncomingEdges), "incoming")
  {
    WordsAreWords();
    LowerOccurs(OutgoingEdges, "outgoing", 0);
    OccurrenceIsContained(Lower(OutgoingEdges), "outgoing", 0);
    LowerOccurs(IncomingEdges, "incoming", 0);
    OccurrenceIsContained(Lower(IncomingEdges), "incoming", 0);
  }

  /** An outdegree error is classified OUTGOING LIMIT EXCEEDED. */
  lemma {:induction false} OutdegreeReason(callerTask: string, calleeTask: string, current: nat, limit: nat)
    requires Free(callerTask, "allowed") && Free(calleeTask, "allowed")
    ensures ExtractViolationReason(ErrorText(ConstraintViolationError(
              OutdegreeMessage(callerTask, calleeTask, current, limit), OutgoingEdges, callerTask)))
            == OutgoingLimitExceeded
  {
    WordsAreWords();
    ErrorFrameWithoutAllowed();
    LimitFrameWithoutAllowed();
    TypesSayTheirSide();
    var what := ". Outdegree limit reached: ";
    var msg := OutdegreeMessage(callerTask, calleeTask, current, limit);
    var e := ConstraintViolationError(msg, OutgoingEdges, callerTask);
    assert msg == Concat(LimitPieces(callerTask, calleeTask, what, current, limit));
    LimitMessageFree(callerTask, calleeTask, what, current, limit, "allowed");
    OccursByChars(what, "limit", 12);
    LimitMessageHas(callerTask, calleeTask, what, current, limit, 12);
    ErrorTextFree(e, "allowed");
    NoAllowList(ErrorText(e));
    ErrorTextHas(e, "outgoing");
    ErrorTextHas(e, "limit");
    ReasonByKeywords(ErrorText(e));
  }

  /** An indegree error is classified INCOMING LIMIT EXCEEDED. */
  lemma {:induction false} IndegreeReason(callerTask: string, calleeTask: string, current: nat, limit: nat)
    requires Free(callerTask, "allowed") && Free(calleeTask, "allowed")
    requires Free(callerTask, "outgoing") && Free(calleeTask, "outgoing")
    ensures ExtractViolationReason(ErrorText(ConstraintViolationError(
              IndegreeMessage(callerTask, calleeTask, current, limit), IncomingEdges, calleeTask)))
            == IncomingLimitExceeded
    ensures Free(ErrorText(ConstraintViolationError(
              IndegreeMessage(callerTask, calleeTask, current, limit), IncomingEdges, calleeTask)), "outgoing")
  {
    WordsAreWords();
    ErrorFrameWithoutAllowed();
    LimitFrameWithoutAllowed();
    ErrorFrameWithoutOutgoing();
    IncomingFrameWithoutOutgoing();
    TypesSayTheirSide();
    var what := ". Indegree limit reached: ";
    var msg := IndegreeMessage(callerTask, calleeTask, current, limit);
    var e := ConstraintViolationError(msg, IncomingEdges, calleeTask);
    assert msg == Concat(LimitPieces(callerTask, calleeTask, what, current, limit));
    LimitMessageFree(callerTask, calleeTask, what, current, limit, "allowed");
    LimitMessageFree(callerTask, calleeTask, what, current, limit, "outgoing");
    OccursByChars(what, "limit", 11);
    LimitMessageHas(callerTask, calleeTask, what, current, limit, 11);
    ErrorTextFree(e, "allowed");
    ErrorTextFree(e, "outgoing");
    NoAllowList(ErrorText(e));
    ErrorTextHas(e, "incoming");
    ErrorTextHas(e, "limit");
    ReasonByKeywords(ErrorText(e));
  }

  /** An outgoing allow-list error is classified OUTGOING NOT ALLOWED, whatever the names. */
  lemma {:induction false} OutgoingAllowReason(callerTask: string, calleeTask: string, baseName: string,
                                               allowed: seq<string>)
    ensures ExtractViolationReason(ErrorText(ConstraintViolationError(
              OutgoingNotAllowedMessage(callerTask, calleeTask, baseName, allowed), OutgoingEdges, callerTask)))
            == OutgoingNotAllowed
  {
    TypesSayTheirSide();
    var what := ". Target task base name '";
    var tail := "' not in allowed outgoing task names ";
    var msg := OutgoingNotAllowedMessage(callerTask, calleeTask, baseName, allowed);
    var e := ConstraintViolationError(msg, OutgoingEdges, callerTask);
    assert msg == Concat(AllowPieces(callerTask, calleeTask, what, baseName, tail, allowed));
    OccursByChars(tail, "not in allowed", 2);
    AllowMessageHas(callerTask, calleeTask, what, baseName, tail, allowed);
    ErrorTextHas(e, "outgoing");
    ErrorTextHas(e, "not in allowed");
    ReasonByKeywords(ErrorText(e));
  }

  /** The text of an incoming allow-list error: it says "incoming" and "not in allowed" and, for plain names, not "outgoing". */
  lemma {:induction false} IncomingAllowText(callerTask: string, calleeTask: string, baseName: string,
                                             allowed: seq<string>)
    requires Free(callerTask, "outgoing") && Free(calleeTask, "outgoing") && Free(baseName, "outgoing")
    requires |allowed| > 0 && forall i :: 0 <= i < |allowed| ==> Free(allowed[i], "outgoing")
    ensures var text := ErrorText(ConstraintViolationError(
              IncomingNotAllowedMessage(callerTask, calleeTask, baseName, allowed), IncomingEdges, calleeTask));
            Free(text, "outgoing") && Contains(Lower(text), "incoming") && Contains(Lower(text), "not in allowed")
  {
    WordsAreWords();
    ErrorFrameWithoutOutgoing();
    IncomingFrameWithoutOutgoing();
    TypesSayTheirSide();
    var what := ". Source task base name '";
    var tail := "' not in allowed incoming task names ";
    var msg := IncomingNotAllowedMessage(callerTask, calleeTask, baseName, allowed);
    var e := ConstraintViolationError(msg, IncomingEdges, calleeTask);
    assert msg == Concat(AllowPieces(callerTask, calleeTask, what, baseName, tail, allowed));
    AllowMessageFree(callerTask, calleeTask, what, baseName, tail, allowed, "outgoing");
    OccursByChars(tail, "not in allowed", 2);
    AllowMessageHas(callerTask, calleeTask, what, baseName, tail, allowed);
    ErrorTextFree(e, "outgoing");
    ErrorTextHas(e, "incoming");
    ErrorTextHas(e, "not in allowed");
  }

  /** An incoming allow-list error is classified INCOMING NOT ALLOWED. */
  lemma {:induction false} IncomingAllowReason(callerTask: string, calleeTask: string, baseName: string,
                                               allowed: seq<string>)
    requires Free(callerTask, "outgoing") && Free(calleeTask, "outgoing") && Free(baseName, "outgoing")
    requires |allowed| > 0 && forall i :: 0 <= i < |allowed| ==> Free(allowed[i], "outgoing")
    ensures ExtractViolationReason(ErrorText(ConstraintViolationError(
              IncomingNotAllowedMessage(callerTask, calleeTask, baseName, allowed), IncomingEdges, calleeTask)))
            == IncomingNotAllowed
    ensures Free(ErrorText(ConstraintViolationError(
              IncomingNotAllowedMessage(callerTask, calleeTask, baseName, allowed), IncomingEdges, calleeTask)), "outgoing")
  {
    IncomingAllowText(callerTask, calleeTask, baseName, allowed);
    ReasonByKeywords(ErrorText(ConstraintViolationError(
      IncomingNotAllowedMessage(callerTask, calleeTask, baseName, allowed), IncomingEdges, calleeTask)));
  }

  // ---------------------------------------------------------------------------
  // Colours

  /** The side the error names is coloured as the offender. */
  lemma {:induction false} SideIsColored(e: ConstraintViolationError)
    ensures e.constraintType == OutgoingEdges ==> CallerColor(ErrorText(e)) == "lightcoral"
    ensures e.constraintType == IncomingEdges ==> CalleeColor(ErrorText(e)) == "lightcoral"
  {
    TypesSayTheirSide();
    if e.constraintType == OutgoingEdges {
      ErrorTextHas(e, "outgoing");
    }
    if e.constraintType == IncomingEdges {
      ErrorTextHas(e, "incoming");
    }
  }

  /** The fixed text of str(error) for an outgoing error, and of the outgoing limit message, has no "incoming". */
  lemma OutgoingFrameWithoutIncoming()
    ensures Free("Constraint violation in task '", "incoming") && Free("' (", "incoming") && Free("): ", "incoming")
    ensures Free(OutgoingEdges, "incoming")
    ensures Free("Cannot add dependency ", "incoming") && Free(" -> ", "incoming") && Free(" >= ", "incoming")
  {
    LowerAbsent("Constraint violation in task '", "incoming", 4, 'm', 'M');
    LowerAbsent("' (", "incoming", 4, 'm', 'M');
    LowerAbsent("): ", "incoming", 4, 'm', 'M');
    LowerAbsent(OutgoingEdges, "incoming", 4, 'm', 'M');
    LowerAbsent("Cannot add dependency ", "incoming", 4, 'm', 'M');
    LowerAbsent(" -> ", "incoming", 4, 'm', 'M');
    LowerAbsent(" >= ", "incoming", 4, 'm', 'M');
  }

  lemma OutgoingPhrasesWithoutIncoming()
    ensures Free(". Outdegree limit reached: ", "incoming")
    ensures Free(". Target task base name '", "incoming") && Free("' not in allowed outgoing task names ", "incoming")
  {
    LowerAbsent(". Outdegree limit reached: ", "incoming", 1, 'n', 'N');
    LowerAbsent(". Target task base name '", "incoming", 2, 'c', 'C');
    LowerAbsent("' not in allowed outgoing task names ", "incoming", 2, 'c', 'C');
  }

  /** An outdegree error leaves the callee uncoloured when the names do not say "incoming". */
  lemma {:induction false} OutdegreeCalleeColor(callerTask: string, calleeTask: string, current: nat, limit: nat)
    requires Free(callerTask, "incoming") && Free(calleeTask, "incoming")
    ensures CalleeColor(ErrorText(ConstraintViolationError(
              OutdegreeMessage(callerTask, calleeTask, current, limit), OutgoingEdges, callerTask))) == "lightyellow"
  {
    WordsAreWords();
    OutgoingFrameWithoutIncoming();
    OutgoingPhrasesWithoutIncoming();
    var what := ". Outdegree limit reached: ";
    var msg := OutdegreeMessage(callerTask, calleeTask, current, limit);
    assert msg == Concat(LimitPieces(callerTask, calleeTask, what, current, limit));
    LimitMessageFree(callerTask, calleeTask, what, current, limit, "incoming");
    ErrorTextFree(ConstraintViolationError(msg, OutgoingEdges, callerTask), "incoming");
  }

  /** Likewise for an outgoing allow-list error. */
  lemma {:induction false} OutgoingAllowCalleeColor(callerTask: string, calleeTask: string, baseName: string,
                                                    allowed: seq<string>)
    requires Free(callerTask, "incoming") && Free(calleeTask, "incoming") && Free(baseName, "incoming")
    requires |allowed| > 0 && forall i :: 0 <= i < |allowed| ==> Free(allowed[i], "incoming")
    ensures CalleeColor(ErrorText(ConstraintViolationError(
              OutgoingNotAllowedMessage(callerTask, calleeTask, baseName, allowed), OutgoingEdges, callerTask)))
            == "lightyellow"
  {
    WordsAreWords();
    OutgoingFrameWithoutIncoming();
    OutgoingPhrasesWithoutIncoming();
    var what := ". Target task base name '";
    var tail := "' not in allowed outgoing task names ";
    var msg := OutgoingNotAllowedMessage(callerTask, calleeTask, baseName, allowed);
    assert msg == Concat(AllowPieces(callerTask, calleeTask, what, baseName, tail, allowed));
    AllowMessageFree(callerTask, calleeTask, what, baseName, tail, allowed, "incoming");
    ErrorTextFree(ConstraintViolationError(msg, OutgoingEdges, callerTask), "incoming");
  }

  // ---------------------------------------------------------------------------
  // From the validator's verdict to the rendered graph

  /** A name the classifier cannot mistake for a keyword. */
  predicate Plain(s: string)
  {
    Free(s, "outgoing") && Free(s, "incoming") && Free(s, "allowed")
  }

  /** Every entry of an allow-list is plain. */
  predicate PlainList(names: seq<string>)
  {
    forall i :: 0 <= i < |names| ==> Plain(names[i])
  }

  /** The names the rendered error can quote are plain. */
  predicate PlainInputs(tasks: map<string, Task>, callerTask: string, calleeTask: string, caller: Task)
  {
    Plain(callerTask) && Plain(calleeTask) && Plain(caller.baseName) && Plain(RegisteredBaseName(tasks, calleeTask)) &&
    (caller.constraints.Some? ==> PlainList(caller.constraints.value.allowOutgoingToNames)) &&
    (calleeTask in tasks && tasks[calleeTask].constraints.Some? ==>
       PlainList(tasks[calleeTask].constraints.value.allowIncomingFromNames))
  }

  /** The rule a rejected edge breaks, checked in the validator's order. */
  function BrokenRule(nodes: map<string, DAGNode>, tasks: map<string, Task>,
                      callerTask: string, calleeTask: string, caller: Task): string
  {
    if caller.constraints.Some? && caller.constraints.value.limitOutdegree.Some? &&
       |DependentsOf(nodes, callerTask)| >= caller.constraints.value.limitOutdegree.value
    then OutgoingLimitExceeded
    else if caller.constraints.Some? && OutgoingBroken(nodes, tasks, callerTask, calleeTask, caller.constraints.value)
    then OutgoingNotAllowed
    else if calleeTask in tasks && tasks[calleeTask].constraints.Some? &&
            tasks[calleeTask].constraints.value.limitIndegree.Some? &&
            |DepsOf(nodes, calleeTask)| >= tasks[calleeTask].constraints.value.limitIndegree.value
    then IncomingLimitExceeded
    else IncomingNotAllowed
  }

  /** The outgoing half of HandlerLabelsBrokenRule. */
  lemma {:induction false} OutgoingRejection(nodes: map<string, DAGNode>, tasks: map<string, Task>,
                                             callerTask: string, calleeTask: string, caller: Task)
    requires ValidateOutgoing(nodes, tasks, callerTask, calleeTask, caller).Fail?
    requires PlainInputs(tasks, callerTask, calleeTask, caller)
    ensures var text := ErrorText(ValidateOutgoing(nodes, tasks, callerTask, calleeTask, caller).error);
            ExtractViolationReason(text) == BrokenRule(nodes, tasks, callerTask, calleeTask, caller) &&
            CallerColor(text) == "lightcoral" && CalleeColor(text) == "lightyellow"
  {
    var e := ValidateOutgoing(nodes, tasks, callerTask, calleeTask, caller).error;
    OutgoingVerdict(nodes, tasks, callerTask, calleeTask, caller);
    SideIsColored(e);
    assert Plain(callerTask);
    assert Plain(calleeTask);
    var c := caller.constraints.value;
    var current := |DependentsOf(nodes, callerTask)|;
    if c.limitOutdegree.Some? && current >= c.limitOutdegree.value {
      OutdegreeReason(callerTask, calleeTask, current, c.limitOutdegree.value);
      OutdegreeCalleeColor(callerTask, calleeTask, current, c.limitOutdegree.value);
    } else {
      var base := RegisteredBaseName(tasks, calleeTask);
      var allowed := c.allowOutgoingToNames;
      assert Plain(base);
      assert forall i :: 0 <= i < |allowed| ==> Free(allowed[i], "incoming");
      OutgoingAllowReason(callerTask, calleeTask, base, allowed);
      OutgoingAllowCalleeColor(callerTask, calleeTask, base, allowed);
    }
  }

  /** The incoming half of HandlerLabelsBrokenRule, once the outgoing checks have passed. */
  lemma {:induction false} IncomingRejection(nodes: map<string, DAGNode>, tasks: map<string, Task>,
                                             callerTask: string, calleeTask: string, caller: Task)
    requires ValidateOutgoing(nodes, tasks, callerTask, calleeTask, caller).Pass?
    requires ValidateIncoming(nodes, tasks, callerTask, calleeTask, caller).Fail?
    requires PlainInputs(tasks, callerTask, calleeTask, caller)
    ensures var text := ErrorText(ValidateIncoming(nodes, tasks, callerTask, calleeTask, caller).error);
            ExtractViolationReason(text) == BrokenRule(nodes, tasks, callerTask, calleeTask, caller) &&
            CallerColor(text) == "lightyellow" && CalleeColor(text) == "lightcoral"
  {
    var e := ValidateIncoming(nodes, tasks, callerTask, calleeTask, caller).error;
    OutgoingVerdict(nodes, tasks, callerTask, calleeTask, caller);
    IncomingVerdict(nodes, tasks, callerTask, calleeTask, caller);
    SideIsColored(e);
    assert Plain(callerTask);
    assert Plain(calleeTask);
    var c := tasks[calleeTask].constraints.value;
    var current := |DepsOf(nodes, calleeTask)|;
    if c.limitIndegree.Some? && current >= c.limitIndegree.value {
      IndegreeReason(callerTask, calleeTask, current, c.limitIndegree.value);
    } else {
      var allowed := c.allowIncomingFromNames;
      assert Plain(caller.baseName);
      assert forall i :: 0 <= i < |allowed| ==> Free(allowed[i], "outgoing");
      IncomingAllowReason(callerTask, calleeTask, caller.baseName, allowed);
    }
  }

  /**
   * For a rejected edge between plain names, the graph the handler draws is
   * labelled with the rule the validator found broken, and the offending side
   * (the caller for an outgoing rule, the callee for an incoming one) is the
   * one coloured light coral; the other side is light yellow.
   */
  lemma {:induction false} HandlerLabelsBrokenRule(nodes: map<string, DAGNode>, tasks: map<string, Task>,
                                                   callerTask: string, calleeTask: string, caller: Task)
    requires ValidateDependency(nodes, tasks, callerTask, calleeTask, caller).Fail?
    requires PlainInputs(tasks, callerTask, calleeTask, caller)
    ensures var text := ErrorText(ValidateDependency(nodes, tasks, callerTask, calleeTask, caller).error);
            var outgoing := ValidateOutgoing(nodes, tasks, callerTask, calleeTask, caller).Fail?;
            ExtractViolationReason(text) == BrokenRule(nodes, tasks, callerTask, calleeTask, caller) &&
            CallerColor(text) == (if outgoing then "lightcoral" else "lightyellow") &&
            CalleeColor(text) == (if outgoing then "lightyellow" else "lightcoral")
  {
    if ValidateOutgoing(nodes, tasks, callerTask, calleeTask, caller).Fail? {
      OutgoingRejection(nodes, tasks, callerTask, calleeTask, caller);
    } else {
      IncomingRejection(nodes, tasks, callerTask, calleeTask, caller);
    }
  }
}
