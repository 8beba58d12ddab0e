/**
 * The task dependency graph (src/latch/orchestration/dag.py).
 *
 * The Python `nodes` dict is held as `names`, its keys in insertion order, and
 * `nodes`, the map from a name to its node. A node records the set of names it
 * depends on and the set of names that depend on it; the graph keeps the two
 * sets symmetric.
 */
module Dag {
  import opened Strings

  datatype DAGNode = DAGNode(taskName: string, dependencies: set<string>, dependents: set<string>)

  /** The node DAGNode(task_name=name) starts out as: both sets empty. */
  function EmptyNode(name: string): (node: DAGNode)
    ensures node.taskName == name && node.dependencies == {} && node.dependents == {}
  {
    DAGNode(name, {}, {})
  }

  // ---------------------------------------------------------------------------
  // Sequences of names, built by appending as the Python lists are

  function Elems<T>(s: seq<T>): set<T>
  {
    set x | x in s
  }

  /** No element occurs twice. */
  predicate Distinct<T(==)>(s: seq<T>)
  {
    |s| == 0 || (Distinct(s[..|s| - 1]) && s[|s| - 1] !in s[..|s| - 1])
  }

  lemma {:induction false} DistinctAt<T>(s: seq<T>, i: int, j: int)
    requires Distinct(s) && 0 <= i < j < |s|
    ensures s[i] != s[j]
  {
    var p := s[..|s| - 1];
    if j == |s| - 1 {
      assert p[i] == s[i];
    } else {
      assert p[i] == s[i] && p[j] == s[j];
      DistinctAt(p, i, j);
    }
  }

  /** A sequence that is not distinct has a repeated element. */
  lemma {:induction false} RepeatOf<T>(s: seq<T>) returns (i: nat, j: nat)
    requires !Distinct(s)
    ensures i < j < |s| && s[i] == s[j]
  {
    var p := s[..|s| - 1];
    if Distinct(p) {
      var k :| 0 <= k < |p| && p[k] == s[|s| - 1];
      i, j := k, |s| - 1;
    } else {
      i, j := RepeatOf(p);
      assert p[i] == s[i] && p[j] == s[j];
    }
  }

  lemma {:induction false} DistinctCard<T>(s: seq<T>)
    requires Distinct(s)
    ensures |Elems(s)| == |s|
  {
    if s != [] {
      var p := s[..|s| - 1];
      DistinctCard(p);
      assert s == p + [s[|s| - 1]];
      assert Elems(s) == Elems(p) + {s[|s| - 1]};
    }
  }

  lemma {:induction false} AppendEmpty<T>(s: seq<T>)
    ensures s + [] + [] == s
  {
    assert s + [] == s;
  }

  lemma {:induction false} TakeAll<T>(s: seq<T>)
    ensures s[..|s|] == s && s[|s|..] == []
  {
  }

  lemma {:induction false} SplitAt<T>(a: seq<T>, b: seq<T>)
    ensures (a + b)[..|a|] == a && (a + b)[|a|..] == b
  {
  }

  lemma {:induction false} ShiftHead<T>(a: seq<T>, b: seq<T>)
    requires b != []
    ensures (a + [b[0]]) + b[1..] == a + b
  {
    assert b == [b[0]] + b[1..];
  }

  lemma {:induction false} AppendAssoc<T>(a: seq<T>, b: seq<T>, x: T)
    ensures a + (b + [x]) == (a + b) + [x]
  {
  }

  lemma {:induction false} ElemsSnoc<T>(s: seq<T>, x: T)
    ensures Elems(s + [x]) == Elems(s) + {x}
  {
  }

  lemma {:induction false} DistinctSnoc<T>(s: seq<T>, x: T)
    requires Distinct(s) && x !in Elems(s)
    ensures Distinct(s + [x])
  {
    assert (s + [x])[..|s|] == s;
  }

  lemma {:induction false} DistinctAppend<T>(a: seq<T>, b: seq<T>)
    requires Distinct(a) && Distinct(b)
    requires forall x :: x in a ==> x !in b
    ensures Distinct(a + b)
  {
    if b != [] {
      var p := b[..|b| - 1];
      assert b == p + [b[|b| - 1]];
      DistinctAppend(a, p);
      var s := a + b;
      assert s[..|s| - 1] == a + p;
      assert s[|s| - 1] == b[|b| - 1];
      assert b[|b| - 1] !in p;
      assert b[|b| - 1] in b;
    } else {
      assert a + b == a;
    }
  }

  lemma {:induction false} SubsetCard<T>(a: set<T>, b: set<T>)
    requires a <= b
    ensures |b| == |a| + |b - a|
  {
    assert b == a + (b - a);
  }

  lemma {:induction false} SubsetOfSameSize<T>(a: set<T>, b: set<T>)
    requires a <= b && |a| == |b|
    ensures a == b
  {
    SubsetCard(a, b);
    assert |b - a| == 0;
  }

  /** Python's `[node for node in names if node not in visited]`. */
  function Unvisited(names: seq<string>, visited: seq<string>): (r: seq<string>)
    ensures forall n :: n in r <==> n in names && n !in visited
    ensures Distinct(names) ==> Distinct(r)
  {
    if names == [] then []
    else
      var p := names[..|names| - 1];
      var last := names[|names| - 1];
      assert names == p + [last];
      var rest := Unvisited(p, visited);
      if last !in visited then
        assert (rest + [last])[..|rest|] == rest;
        rest + [last]
      else rest
  }

  /** The first position at which `x` occurs in `s`. */
  function FirstIndex(s: seq<string>, x: string): (i: nat)
    requires x in s
    ensures i < |s| && s[i] == x && x !in s[..i]
  {
    if s[0] == x then 0
    else
      var j := FirstIndex(s[1..], x);
      assert s[1..][..j] == s[1..j + 1];
      j + 1
  }

  lemma {:induction false} FirstIndexIsFirst(s: seq<string>, x: string, j: int)
    requires 0 <= j < |s| && s[j] == x
    ensures FirstIndex(s, x) <= j
  {
    if s[0] != x {
      assert s[1..][j - 1] == x;
      FirstIndexIsFirst(s[1..], x, j - 1);
    }
  }

  // ---------------------------------------------------------------------------
  // Graph invariants, paths and cycles, over the value of the graph

  /** Looking up a set the way `dag.nodes.get(name)` does: an absent node has empty sets. */
  function DepsOf(nodes: map<string, DAGNode>, n: string): set<string>
  {
    if n in nodes then nodes[n].dependencies else {}
  }

  function DependentsOf(nodes: map<string, DAGNode>, n: string): set<string>
  {
    if n in nodes then nodes[n].dependents else {}
  }

  /** `names` lists the keys of `nodes`, each once: the dict's key order. */
  ghost predicate KeyOrder(names: seq<string>, nodes: map<string, DAGNode>)
  {
    Distinct(names) && forall n :: n in nodes <==> n in names
  }

  /** Every node is stored under its own name and every name an edge mentions has a node. */
  ghost predicate Closed(nodes: map<string, DAGNode>)
  {
    forall n :: n in nodes ==>
      nodes[n].taskName == n && nodes[n].dependencies <= nodes.Keys && nodes[n].dependents <= nodes.Keys
  }

  /** x is a dependency of y exactly when y is a dependent of x. */
  ghost predicate Symmetric(nodes: map<string, DAGNode>)
  {
    forall x, y {:trigger x in nodes[y].dependencies} {:trigger y in nodes[x].dependents} :: x in nodes && y in nodes ==> (x in nodes[y].dependencies <==> y in nodes[x].dependents)
  }

  /** A walk along dependency edges: each name depends on the next. */
  ghost predicate IsPath(nodes: map<string, DAGNode>, p: seq<string>)
  {
    |p| >= 1 &&
    (forall i :: 0 <= i < |p| ==> p[i] in nodes) &&
    forall i, j :: 0 <= i < |p| - 1 && j == i + 1 ==> p[j] in nodes[p[i]].dependencies
  }

  ghost predicate IsCycle(nodes: map<string, DAGNode>, p: seq<string>)
  {
    |p| >= 2 && IsPath(nodes, p) && p[0] == p[|p| - 1]
  }

  ghost predicate HasCycle(nodes: map<string, DAGNode>)
  {
    exists p :: IsCycle(nodes, p)
  }

  /** Every name in `s` is a node listed after all of its dependencies. */
  ghost predicate DependenciesFirst(nodes: map<string, DAGNode>, s: seq<string>)
  {
    |s| == 0 ||
    (DependenciesFirst(nodes, s[..|s| - 1]) &&
     s[|s| - 1] in nodes && nodes[s[|s| - 1]].dependencies <= Elems(s[..|s| - 1]))
  }

  /** The positional reading of DependenciesFirst. */
  lemma {:induction false} DependenciesFirstAt(nodes: map<string, DAGNode>, s: seq<string>, i: int)
    requires DependenciesFirst(nodes, s) && 0 <= i < |s|
    ensures s[i] in nodes && nodes[s[i]].dependencies <= Elems(s[..i])
  {
    var p := s[..|s| - 1];
    if i < |s| - 1 {
      assert p[i] == s[i] && p[..i] == s[..i];
      DependenciesFirstAt(nodes, p, i);
    }
  }

  lemma {:induction false} DependencyComesEarlier(nodes: map<string, DAGNode>, s: seq<string>, x: string, d: string)
    requires DependenciesFirst(nodes, s) && x in s && x in nodes && d in nodes[x].dependencies
    ensures d in s && FirstIndex(s, d) < FirstIndex(s, x)
  {
    var i := FirstIndex(s, x);
    DependenciesFirstAt(nodes, s, i);
    assert d in Elems(s[..i]);
    var j :| 0 <= j < i && s[..i][j] == d;
    assert s[j] == d;
    FirstIndexIsFirst(s, d, j);
  }

  /** Along a path whose names all occur in a dependencies-first sequence, first positions strictly decrease. */
  lemma {:induction false} PathDescends(nodes: map<string, DAGNode>, s: seq<string>, p: seq<string>)
    requires DependenciesFirst(nodes, s) && IsPath(nodes, p) && |p| >= 2
    requires p[0] in s
    ensures p[|p| - 1] in s && FirstIndex(s, p[|p| - 1]) < FirstIndex(s, p[0])
  {
    assert p[1] in nodes[p[0]].dependencies;
    DependencyComesEarlier(nodes, s, p[0], p[1]);
    if |p| > 2 {
      var q := p[1..];
      assert IsPath(nodes, q) by {
        forall i, j | 0 <= i < |q| - 1 && j == i + 1 ensures q[j] in nodes[q[i]].dependencies {
          assert q[i] == p[i + 1] && q[j] == p[i + 2];
        }
      }
      PathDescends(nodes, s, q);
    }
  }

  /** A graph whose every node can be listed dependencies-first has no cycle. */
  lemma {:induction false} OrderedGraphIsAcyclic(nodes: map<string, DAGNode>, s: seq<string>)
    requires DependenciesFirst(nodes, s) && nodes.Keys <= Elems(s)
    ensures !HasCycle(nodes)
  {
    forall p ensures !IsCycle(nodes, p) {
      if |p| >= 2 && IsPath(nodes, p) {
        assert p[0] in nodes;
        PathDescends(nodes, s, p);
      }
    }
  }

  /** Every name in `L` is a node with a dependency that is itself in `L`. */
  ghost predicate WaitsInside(nodes: map<string, DAGNode>, L: set<string>)
  {
    L <= nodes.Keys &&
    forall x {:trigger DepsOf(nodes, x)} :: x in L ==> exists d :: d in DepsOf(nodes, x) && d in L
  }

  /** Following dependencies inside a set where every name waits on another never gets stuck. */
  lemma {:induction false} WalkInside(nodes: map<string, DAGNode>, L: set<string>, n: nat) returns (w: seq<string>)
    requires L != {} && WaitsInside(nodes, L)
    ensures |w| == n + 1 && IsPath(nodes, w) && Elems(w) <= L
  {
    if n == 0 {
      var x :| x in L;
      w := [x];
    } else {
      var v := WalkInside(nodes, L, n - 1);
      var last := v[|v| - 1];
      assert last in Elems(v);
      var d :| d in DepsOf(nodes, last) && d in L;
      w := v + [d];
      assert Elems(w) == Elems(v) + {d};
      forall i | 0 <= i < |w| ensures w[i] in nodes {
        if i < |v| { assert w[i] == v[i]; }
      }
      forall i, j | 0 <= i < |w| - 1 && j == i + 1 ensures w[j] in nodes[w[i]].dependencies {
        assert w[i] == v[i];
        if j < |v| {
          assert w[j] == v[j];
          assert v[j] in nodes[v[i]].dependencies;
        } else {
          assert w[j] == d;
        }
      }
    }
  }

  /** A non-empty set of nodes each of which has a dependency in the set contains a cycle. */
  lemma {:induction false} LeftoverHasCycle(nodes: map<string, DAGNode>, L: set<string>)
    requires L != {} && WaitsInside(nodes, L)
    ensures HasCycle(nodes)
  {
    var w := WalkInside(nodes, L, |L|);
    assert !Distinct(w) by {
      if Distinct(w) {
        DistinctCard(w);
        SubsetCard(Elems(w), L);
        assert false;
      }
    }
    var i, j := RepeatOf(w);
    var p := w[i..j + 1];
    assert IsPath(nodes, p) by {
      forall t | 0 <= t < |p| ensures p[t] in nodes {
        assert p[t] == w[i + t];
      }
      forall t, u | 0 <= t < |p| - 1 && u == t + 1 ensures p[u] in nodes[p[t]].dependencies {
        assert p[t] == w[i + t] && p[u] == w[i + t + 1];
      }
    }
    assert IsCycle(nodes, p);
  }

  /**
   * The edge update add_dependency performs once both nodes exist: `b` joins
   * the dependencies of `a` and `a` the dependents of `b`. The second update
   * reads the entry the first one wrote, as the Python code does when the two
   * names are the same node.
   */
  function WithEdge(nodes: map<string, DAGNode>, a: string, b: string): (r: map<string, DAGNode>)
    requires a in nodes && b in nodes
    ensures r.Keys == nodes.Keys
    ensures forall n :: n in r ==>
      r[n] == DAGNode(nodes[n].taskName,
                      nodes[n].dependencies + (if n == a then {b} else {}),
                      nodes[n].dependents + (if n == b then {a} else {}))
  {
    var n1 := nodes[a := nodes[a].(dependencies := nodes[a].dependencies + {b})];
    n1[b := n1[b].(dependents := n1[b].dependents + {a})]
  }

  /** Recording an edge between two existing nodes keeps the graph closed and symmetric. */
  lemma {:induction false} AddEdgeKeepsInvariant(nodes: map<string, DAGNode>, a: string, b: string)
    requires Closed(nodes) && Symmetric(nodes) && a in nodes && b in nodes
    ensures Closed(WithEdge(nodes, a, b)) && Symmetric(WithEdge(nodes, a, b))
  {
    var r := WithEdge(nodes, a, b);
    forall x, y | x in r && y in r ensures x in r[y].dependencies <==> y in r[x].dependents {
      assert x in nodes[y].dependencies <==> y in nodes[x].dependents;
    }
  }

  lemma {:induction false} RemoveOneCard(A: set<string>, E: set<string>, c: string)
    requires c !in E
    ensures |A - E| == |A - (E + {c})| + (if c in A then 1 else 0)
  {
    if c in A {
      assert A - E == (A - (E + {c})) + {c};
    } else {
      assert A - E == A - (E + {c});
    }
  }

  lemma {:induction false} NothingLeft(A: set<string>, B: set<string>, C: set<string>)
    requires |A - B| == 0 && B <= C
    ensures A <= C
  {
    var D := A - B;
    assert D == {};
    forall x | x in A ensures x in C {
      assert x !in D;
    }
  }

  /** Python's `[task for task, degree in in_degrees.items() if degree == 0]`, keys in insertion order. */
  function ZeroDegreeNames(names: seq<string>, inDegrees: map<string, int>): (r: seq<string>)
    requires forall n :: n in names ==> n in inDegrees
    ensures forall n :: n in r <==> n in names && inDegrees[n] == 0
    ensures Distinct(names) ==> Distinct(r)
  {
    if names == [] then []
    else
      var p := names[..|names| - 1];
      var last := names[|names| - 1];
      assert names == p + [last];
      var rest := ZeroDegreeNames(p, inDegrees);
      if inDegrees[last] == 0 then
        assert (rest + [last])[..|rest|] == rest;
        rest + [last]
      else rest
  }

  /** The sum of the dependency-set sizes of the nodes in `s`. */
  function TotalDependencies(nodes: map<string, DAGNode>, s: seq<string>): nat
    requires forall n :: n in s ==> n in nodes
  {
    if s == [] then 0
    else TotalDependencies(nodes, s[..|s| - 1]) + |nodes[s[|s| - 1]].dependencies|
  }

  // ---------------------------------------------------------------------------
  // The state of Kahn's algorithm

  /** Each node's in-degree counts its dependencies not yet emitted, plus one while it is pending. */
  ghost predicate DegreesCount(nodes: map<string, DAGNode>, inDegrees: map<string, int>,
                               emitted: set<string>, pending: set<string>)
  {
    inDegrees.Keys == nodes.Keys &&
    forall n :: n in nodes ==>
      inDegrees[n] == |nodes[n].dependencies - emitted| + (if n in pending then 1 else 0)
  }

  /** The nodes of in-degree zero are exactly the emitted and queued ones. */
  ghost predicate ZeroQueued(nodes: map<string, DAGNode>, inDegrees: map<string, int>, rq: seq<string>)
  {
    inDegrees.Keys == nodes.Keys &&
    forall n :: n in nodes ==> (n in rq <==> inDegrees[n] == 0)
  }

  /**
   * The loop state of topological_sort, over `rq`, the emitted nodes followed
   * by the queued ones, of which the first `k` are emitted: every node occurs
   * at most once, the in-degrees count what is not yet emitted, the nodes of
   * in-degree zero are exactly those in `rq`, and `rq` lists dependencies
   * first. `pending` holds the dependents of the node being emitted whose
   * in-degree has not yet been decremented.
   */
  ghost predicate KahnState(nodes: map<string, DAGNode>, inDegrees: map<string, int>,
                            rq: seq<string>, k: int, pending: set<string>)
  {
    0 <= k <= |rq| && Distinct(rq) && Elems(rq) <= nodes.Keys &&
    DegreesCount(nodes, inDegrees, Elems(rq[..k]), pending) &&
    ZeroQueued(nodes, inDegrees, rq) &&
    DependenciesFirst(nodes, rq)
  }

  lemma {:induction false} NoDependenciesFirst(nodes: map<string, DAGNode>, s: seq<string>)
    requires forall n :: n in s ==> n in nodes && nodes[n].dependencies == {}
    ensures DependenciesFirst(nodes, s)
  {
    if s != [] {
      var p := s[..|s| - 1];
      assert s == p + [s[|s| - 1]];
      NoDependenciesFirst(nodes, p);
    }
  }

  lemma {:induction false} KahnStart(nodes: map<string, DAGNode>, names: seq<string>, inDegrees: map<string, int>)
    requires KeyOrder(names, nodes)
    requires inDegrees.Keys == nodes.Keys
    requires forall n :: n in inDegrees ==> inDegrees[n] == |nodes[n].dependencies|
    ensures KahnState(nodes, inDegrees, ZeroDegreeNames(names, inDegrees), 0, {})
  {
    var queue := ZeroDegreeNames(names, inDegrees);
    assert Elems(queue[..0]) == {};
    assert DegreesCount(nodes, inDegrees, {}, {}) by {
      forall n | n in nodes ensures inDegrees[n] == |nodes[n].dependencies - {}| {
        assert nodes[n].dependencies - {} == nodes[n].dependencies;
      }
    }
    assert ZeroQueued(nodes, inDegrees, queue);
    assert Elems(queue) <= nodes.Keys;
    NoDependenciesFirst(nodes, queue);
  }

  /** Emitting `current`: each of its dependents has one dependency fewer left to wait for, and becomes pending. */
  lemma {:induction false} EmitDegrees(nodes: map<string, DAGNode>, inDegrees: map<string, int>,
                                       emitted: set<string>, current: string)
    requires Symmetric(nodes) && current in nodes && current !in emitted
    requires DegreesCount(nodes, inDegrees, emitted, {})
    ensures DegreesCount(nodes, inDegrees, emitted + {current}, nodes[current].dependents)
  {
    forall n | n in nodes
      ensures inDegrees[n] == |nodes[n].dependencies - (emitted + {current})| +
                              (if n in nodes[current].dependents then 1 else 0)
    {
      RemoveOneCard(nodes[n].dependencies, emitted, current);
    }
  }

  lemma {:induction false} PrefixElems(rq: seq<string>, k: int)
    requires Distinct(rq) && 0 <= k < |rq|
    ensures rq[k] !in Elems(rq[..k])
    ensures Elems(rq[..k + 1]) == Elems(rq[..k]) + {rq[k]}
    ensures Elems(rq[..k]) <= Elems(rq)
  {
    assert rq[..k + 1] == rq[..k] + [rq[k]];
    forall i | 0 <= i < k ensures rq[..k][i] != rq[k] {
      DistinctAt(rq, i, k);
    }
  }

  /** Taking the head of the queue: it is emitted and its dependents become pending. */
  lemma {:induction false} KahnPop(nodes: map<string, DAGNode>, inDegrees: map<string, int>, rq: seq<string>, k: int)
    requires Symmetric(nodes)
    requires KahnState(nodes, inDegrees, rq, k, {}) && k < |rq|
    ensures KahnState(nodes, inDegrees, rq, k + 1, nodes[rq[k]].dependents)
  {
    PrefixElems(rq, k);
    assert rq[k] in Elems(rq);
    EmitDegrees(nodes, inDegrees, Elems(rq[..k]), rq[k]);
  }

  /** Decrementing the in-degree of a pending node. */
  lemma {:induction false} DegreeRelease(nodes: map<string, DAGNode>, inDegrees: map<string, int>,
                                         emitted: set<string>, pending: set<string>, d: string)
    requires DegreesCount(nodes, inDegrees, emitted, pending) && d in pending && d in nodes
    ensures DegreesCount(nodes, inDegrees[d := inDegrees[d] - 1], emitted, pending - {d})
    ensures inDegrees[d] - 1 == |nodes[d].dependencies - emitted|
  {
    var inDegrees' := inDegrees[d := inDegrees[d] - 1];
    forall n | n in nodes
      ensures inDegrees'[n] == |nodes[n].dependencies - emitted| + (if n in pending - {d} then 1 else 0)
    {
      if n != d { assert inDegrees'[n] == inDegrees[n]; }
    }
  }

  /** A node not yet queued whose in-degree drops to zero joins the queue. */
  lemma {:induction false} ZeroRelease(nodes: map<string, DAGNode>, inDegrees: map<string, int>, rq: seq<string>, d: string)
    requires ZeroQueued(nodes, inDegrees, rq) && d in nodes && d !in rq
    ensures inDegrees[d] - 1 == 0 ==> ZeroQueued(nodes, inDegrees[d := inDegrees[d] - 1], rq + [d])
    ensures inDegrees[d] - 1 != 0 ==> ZeroQueued(nodes, inDegrees[d := inDegrees[d] - 1], rq)
  {
    var inDegrees' := inDegrees[d := inDegrees[d] - 1];
    var s := if inDegrees'[d] == 0 then rq + [d] else rq;
    forall n | n in nodes ensures n in s <==> inDegrees'[n] == 0 {
      if n != d { assert inDegrees'[n] == inDegrees[n]; }
    }
  }

  /** Queueing a node whose dependencies were all emitted keeps the queue distinct and dependencies-first. */
  lemma {:induction false} QueueAppend(nodes: map<string, DAGNode>, rq: seq<string>, k: int, d: string)
    requires Distinct(rq) && Elems(rq) <= nodes.Keys && DependenciesFirst(nodes, rq) && 0 <= k <= |rq|
    requires d in nodes && d !in rq && |nodes[d].dependencies - Elems(rq[..k])| == 0
    ensures Distinct(rq + [d]) && Elems(rq + [d]) <= nodes.Keys && DependenciesFirst(nodes, rq + [d])
    ensures (rq + [d])[..k] == rq[..k]
  {
    var s := rq + [d];
    assert s[..|s| - 1] == rq;
    assert Elems(s) == Elems(rq) + {d};
    if k < |rq| { PrefixElems(rq, k); } else { assert rq[..k] == rq; }
    NothingLeft(nodes[d].dependencies, Elems(rq[..k]), Elems(rq));
  }

  /** Decrementing one pending dependent, and queueing it when nothing is left for it to wait on. */
  lemma {:induction false} KahnRelease(nodes: map<string, DAGNode>, inDegrees: map<string, int>, rq: seq<string>,
                                       k: int, pending: set<string>, d: string)
    requires KahnState(nodes, inDegrees, rq, k, pending) && pending <= nodes.Keys && d in pending
    ensures inDegrees[d] - 1 == 0 ==>
      KahnState(nodes, inDegrees[d := inDegrees[d] - 1], rq + [d], k, pending - {d})
    ensures inDegrees[d] - 1 != 0 ==>
      KahnState(nodes, inDegrees[d := inDegrees[d] - 1], rq, k, pending - {d})
  {
    assert d in nodes && d !in rq;
    DegreeRelease(nodes, inDegrees, Elems(rq[..k]), pending, d);
    ZeroRelease(nodes, inDegrees, rq, d);
    if inDegrees[d] - 1 == 0 {
      QueueAppend(nodes, rq, k, d);
    }
  }

  /** A node never emitted has a dependency that was never emitted either. */
  lemma {:induction false} StuckNodesWait(nodes: map<string, DAGNode>, inDegrees: map<string, int>, kahn: seq<string>)
    requires Closed(nodes)
    requires DegreesCount(nodes, inDegrees, Elems(kahn), {}) && ZeroQueued(nodes, inDegrees, kahn)
    ensures WaitsInside(nodes, nodes.Keys - Elems(kahn))
  {
    var L := nodes.Keys - Elems(kahn);
    forall n | n in L ensures exists d :: d in DepsOf(nodes, n) && d in L {
      assert n !in kahn;
      var waiting := nodes[n].dependencies - Elems(kahn);
      assert |waiting| != 0;
      assert waiting != {};
      var d :| d in waiting;
      assert d in DepsOf(nodes, n) && d in L;
    }
  }

  /** Nodes never emitted each wait on another never-emitted node, and so lie on a cycle. */
  lemma {:induction false} KahnStuck(nodes: map<string, DAGNode>, inDegrees: map<string, int>, kahn: seq<string>)
    requires Closed(nodes) && Elems(kahn) <= nodes.Keys
    requires DegreesCount(nodes, inDegrees, Elems(kahn), {}) && ZeroQueued(nodes, inDegrees, kahn)
    requires |Elems(kahn)| < |nodes.Keys|
    ensures HasCycle(nodes)
  {
    var L := nodes.Keys - Elems(kahn);
    assert L != {} by {
      if L == {} { SubsetOfSameSize(nodes.Keys, Elems(kahn)); }
    }
    StuckNodesWait(nodes, inDegrees, kahn);
    LeftoverHasCycle(nodes, L);
  }

  /** Appending the never-emitted nodes in key order lists every node exactly once. */
  lemma {:induction false} LeftoverInKeyOrder(nodes: map<string, DAGNode>, names: seq<string>, kahn: seq<string>)
    requires KeyOrder(names, nodes) && Distinct(kahn) && Elems(kahn) <= nodes.Keys
    ensures var all := kahn + Unvisited(names, kahn);
            |all| == |names| && Distinct(all) && Elems(all) == nodes.Keys
  {
    var remaining := Unvisited(names, kahn);
    var all := kahn + remaining;
    DistinctAppend(kahn, remaining);
    assert Elems(all) == nodes.Keys by {
      forall n | n in nodes ensures n in all {
        assert n in names;
        if n !in kahn { assert n in remaining; }
      }
    }
    DistinctCard(all);
    DistinctCard(names);
    assert Elems(names) == nodes.Keys;
  }

  /**
   * When the queue runs dry, either every node was emitted and there is no
   * cycle, or some were not and there is one.
   */
  lemma {:induction false} KahnFinish(nodes: map<string, DAGNode>, names: seq<string>,
                                      inDegrees: map<string, int>, kahn: seq<string>)
    requires KeyOrder(names, nodes) && Closed(nodes)
    requires KahnState(nodes, inDegrees, kahn, |kahn|, {})
    ensures |nodes| == |names|
    ensures |kahn| == |nodes| ==> Elems(kahn) == nodes.Keys
    ensures |kahn| == |nodes| <==> !HasCycle(nodes)
  {
    KeyOrderSize(names, nodes);
    DistinctCard(kahn);
    TakeAll(kahn);
    assert |nodes| == |nodes.Keys|;
    if |kahn| == |nodes| {
      SubsetOfSameSize(Elems(kahn), nodes.Keys);
      OrderedGraphIsAcyclic(nodes, kahn);
    } else {
      SubsetCard(Elems(kahn), nodes.Keys);
      KahnStuck(nodes, inDegrees, kahn);
    }
  }

  /** The key order lists as many names as there are nodes. */
  lemma {:induction false} KeyOrderSize(names: seq<string>, nodes: map<string, DAGNode>)
    requires KeyOrder(names, nodes)
    ensures |names| == |nodes| && Elems(names) == nodes.Keys
  {
    DistinctCard(names);
    assert Elems(names) == nodes.Keys;
    assert |nodes| == |nodes.Keys|;
  }

  /**
   * A dependencies-first prefix followed by a rest whose nodes all wait inside
   * the rest splits a distinct order at one place only, so the prefix of a
   * cycle-case order is fixed by the order itself.
   */
  lemma {:induction false} SplitIsUnique(nodes: map<string, DAGNode>, order: seq<string>, k1: int, k2: int)
    requires Distinct(order)
    requires 0 <= k1 <= |order| && DependenciesFirst(nodes, order[..k1]) && WaitsInside(nodes, Elems(order[k1..]))
    requires 0 <= k2 <= |order| && DependenciesFirst(nodes, order[..k2]) && WaitsInside(nodes, Elems(order[k2..]))
    ensures k1 == k2
  {
    if k1 < k2 {
      FirstOfRestWaitsOutside(nodes, order, k1, k2);
      assert false;
    } else if k2 < k1 {
      FirstOfRestWaitsOutside(nodes, order, k2, k1);
      assert false;
    }
  }

  /** The first node of a later rest that sits inside a dependencies-first prefix has no dependency in that rest. */
  lemma {:induction false} FirstOfRestWaitsOutside(nodes: map<string, DAGNode>, order: seq<string>, a: int, b: int)
    requires Distinct(order) && 0 <= a < b <= |order|
    requires DependenciesFirst(nodes, order[..b])
    ensures !WaitsInside(nodes, Elems(order[a..]))
  {
    var x := order[a];
    assert order[a..][0] == x;
    DependenciesFirstAt(nodes, order[..b], a);
    assert order[..b][a] == x && order[..b][..a] == order[..a];
    forall d | d in DepsOf(nodes, x)
      ensures d !in Elems(order[a..])
    {
      var i :| 0 <= i < a && order[..a][i] == d;
      if d in Elems(order[a..]) {
        var j :| 0 <= j < |order| - a && order[a..][j] == d;
        DistinctAt(order, i, a + j);
      }
    }
    assert x in Elems(order[a..]) && !(exists d :: d in DepsOf(nodes, x) && d in Elems(order[a..]));
  }

  /** The never-emitted nodes, listed in key order, each wait on another never-emitted node. */
  lemma {:induction false} LeftoverWaits(nodes: map<string, DAGNode>, names: seq<string>,
                                         inDegrees: map<string, int>, kahn: seq<string>)
    requires KeyOrder(names, nodes) && Closed(nodes)
    requires KahnState(nodes, inDegrees, kahn, |kahn|, {})
    ensures WaitsInside(nodes, Elems(Unvisited(names, kahn)))
  {
    TakeAll(kahn);
    StuckNodesWait(nodes, inDegrees, kahn);
    assert Elems(Unvisited(names, kahn)) == nodes.Keys - Elems(kahn);
  }

  /**
   * What topological_sort returns: the emitted nodes, then, only when some
   * were never emitted, the rest in key order. Either way every node occurs
   * once, the emitted prefix lists dependencies first, and the rest follow
   * in key order.
   */
  lemma {:induction false} KahnOutcome(nodes: map<string, DAGNode>, names: seq<string>,
                                       inDegrees: map<string, int>, kahn: seq<string>)
    requires KeyOrder(names, nodes) && Closed(nodes)
    requires KahnState(nodes, inDegrees, kahn, |kahn|, {})
    ensures var order := if |kahn| != |nodes| then kahn + Unvisited(names, kahn) else kahn;
            |order| == |names| && Distinct(order) && Elems(order) == nodes.Keys &&
            (|kahn| != |nodes| <==> HasCycle(nodes)) &&
            (|kahn| == |nodes| ==> DependenciesFirst(nodes, order)) &&
            0 <= |kahn| <= |order| && DependenciesFirst(nodes, order[..|kahn|]) &&
            order[|kahn|..] == Unvisited(names, order[..|kahn|]) &&
            WaitsInside(nodes, Elems(order[|kahn|..]))
  {
    KahnFinish(nodes, names, inDegrees, kahn);
    LeftoverWaits(nodes, names, inDegrees, kahn);
    LeftoverInKeyOrder(nodes, names, kahn);
    SplitAt(kahn, Unvisited(names, kahn));
    if |kahn| == |nodes| {
      assert Unvisited(names, kahn) == [] by {
        forall n | n in names ensures n in kahn {
          assert n in nodes;
        }
      }
    }
    TakeAll(kahn);
  }

  // ---------------------------------------------------------------------------
  // The structural snapshot produced by to_json (without generated_at)

  datatype NodeJson = NodeJson(
    id: string, labelText: string, kind: string,
    dependenciesCount: nat, dependentsCount: nat, topologicalPosition: nat)

  datatype EdgeJson = EdgeJson(id: string, source: string, target: string, kind: string, labelText: string)

  datatype DagMetadata = DagMetadata(totalNodes: nat, totalEdges: nat, topologicalOrder: seq<string>)

  datatype DagJson = DagJson(nodes: seq<NodeJson>, edges: seq<EdgeJson>, metadata: DagMetadata)

  /** The id f"edge_{n}". */
  function EdgeId(n: nat): string
  {
    "edge_" + NatToString(n)
  }

  /** An edge id is "edge_" followed by digits that read back as the number it was made from. */
  lemma {:induction false} EdgeIdRoundTrip(n: nat)
    ensures |EdgeId(n)| > 5 && EdgeId(n)[..5] == "edge_" && ParseNat(EdgeId(n)[5..]) == n
  {
    assert EdgeId(n)[..5] == "edge_";
    assert EdgeId(n)[5..] == NatToString(n);
    NatToStringRoundTrip(n);
  }

  /** Edges numbered differently have different ids. */
  lemma {:induction false} EdgeIdsDistinct(m: nat, n: nat)
    requires m != n
    ensures EdgeId(m) != EdgeId(n)
  {
    EdgeIdRoundTrip(m);
    EdgeIdRoundTrip(n);
  }

  /** The (source, target) pair of each edge, in order. */
  function Pairs(edges: seq<EdgeJson>): (r: seq<(string, string)>)
    ensures |r| == |edges| && forall i :: 0 <= i < |edges| ==> r[i] == (edges[i].source, edges[i].target)
  {
    seq(|edges|, i requires 0 <= i < |edges| => (edges[i].source, edges[i].target))
  }

  lemma {:induction false} PairsAppend(a: seq<EdgeJson>, b: seq<EdgeJson>)
    ensures Pairs(a + b) == Pairs(a) + Pairs(b)
  {
    assert forall i :: 0 <= i < |a + b| ==> Pairs(a + b)[i] == (Pairs(a) + Pairs(b))[i];
  }

  /** The (dependency, dependent) pairs the graph records for the nodes in `targets`. */
  ghost function EdgePairs(nodes: map<string, DAGNode>, targets: set<string>): set<(string, string)>
  {
    set n, d | n in targets && n in nodes && d in nodes[n].dependencies :: (d, n)
  }

  function IntoPairs(deps: set<string>, target: string): set<(string, string)>
  {
    set d | d in deps :: (d, target)
  }

  /** A well-formed edge entry: numbered by its position, of type "dependency", labelled "depends_on". */
  predicate EdgeEntryAt(e: EdgeJson, position: nat)
  {
    e.id == EdgeId(position) && e.kind == "dependency" && e.labelText == "depends_on"
  }

  /** The node entries to_json lists for `order`: the i-th describes order[i], at position i. */
  function NodeEntries(nodes: map<string, DAGNode>, order: seq<string>): (entries: seq<NodeJson>)
    requires forall n :: n in order ==> n in nodes
    ensures |entries| == |order|
    ensures forall i :: 0 <= i < |order| ==>
      entries[i] == NodeJson(order[i], order[i], "task",
                             |nodes[order[i]].dependencies|, |nodes[order[i]].dependents|, i)
  {
    seq(|order|, i requires 0 <= i < |order| =>
      NodeJson(order[i], order[i], "task", |nodes[order[i]].dependencies|, |nodes[order[i]].dependents|, i))
  }

  lemma {:induction false} IntoPairsCard(deps: set<string>, target: string)
    ensures |IntoPairs(deps, target)| == |deps|
    decreases |deps|
  {
    if deps != {} {
      var d :| d in deps;
      IntoPairsCard(deps - {d}, target);
      assert IntoPairs(deps, target) == IntoPairs(deps - {d}, target) + {(d, target)};
    }
  }

  /** The node part of to_json: entry i describes order[i]. */
  method NodeEntriesOf(nodes: map<string, DAGNode>, order: seq<string>) returns (entries: seq<NodeJson>)
    requires forall n :: n in order ==> n in nodes
    ensures entries == NodeEntries(nodes, order)
  {
    entries := [];
    for position := 0 to |order|
      invariant entries == NodeEntries(nodes, order[..position])
    {
      var taskName := order[position];
      var node := nodes[taskName];
      assert order[..position + 1][..position] == order[..position];
      entries := entries + [NodeJson(taskName, taskName, "task",
                                     |node.dependencies|, |node.dependents|, position)];
    }
    assert order[..|order|] == order;
  }

  /** Appending the entry numbered next keeps a run of entries numbered from `firstId`. */
  lemma {:induction false} EntriesExtend(es: seq<EdgeJson>, e: EdgeJson, firstId: nat, taskName: string)
    requires forall i :: 0 <= i < |es| ==> EdgeEntryAt(es[i], firstId + i) && es[i].target == taskName
    requires EdgeEntryAt(e, firstId + |es|) && e.target == taskName
    ensures forall i :: 0 <= i < |es + [e]| ==> EdgeEntryAt((es + [e])[i], firstId + i) && (es + [e])[i].target == taskName
  {
    forall i | 0 <= i < |es + [e]| ensures EdgeEntryAt((es + [e])[i], firstId + i) && (es + [e])[i].target == taskName {
      if i < |es| { assert (es + [e])[i] == es[i]; }
    }
  }

  /** Appending the edge from a pending dependency keeps the pairs distinct and records that pair. */
  lemma {:induction false} PairsExtend(es: seq<EdgeJson>, e: EdgeJson, dependencies: set<string>, pending: set<string>)
    requires Distinct(Pairs(es)) && Elems(Pairs(es)) == IntoPairs(dependencies - pending, e.target)
    requires e.source in pending && pending <= dependencies
    ensures Distinct(Pairs(es + [e]))
    ensures Elems(Pairs(es + [e])) == IntoPairs(dependencies - (pending - {e.source}), e.target)
  {
    PairsSnoc(es, e);
    assert (e.source, e.target) !in Elems(Pairs(es));
    DistinctSnoc(Pairs(es), (e.source, e.target));
    IntoPairsMove(dependencies, pending, e.source, e.target);
  }

  lemma {:induction false} PairsSnoc(es: seq<EdgeJson>, e: EdgeJson)
    ensures Pairs(es + [e]) == Pairs(es) + [(e.source, e.target)]
    ensures Elems(Pairs(es + [e])) == Elems(Pairs(es)) + {(e.source, e.target)}
  {
    PairsAppend(es, [e]);
    assert Pairs([e]) == [(e.source, e.target)];
    ElemsSnoc(Pairs(es), (e.source, e.target));
  }

  lemma {:induction false} IntoPairsMove(dependencies: set<string>, pending: set<string>, x: string, target: string)
    requires x in pending && pending <= dependencies
    ensures IntoPairs(dependencies - (pending - {x}), target) == IntoPairs(dependencies - pending, target) + {(x, target)}
  {
    assert dependencies - (pending - {x}) == (dependencies - pending) + {x};
  }

  /** The edges into `taskName`, one per dependency, numbered from `firstId`. */
  method EdgesInto(taskName: string, dependencies: set<string>, firstId: nat) returns (es: seq<EdgeJson>)
    ensures |es| == |dependencies|
    ensures forall i :: 0 <= i < |es| ==> EdgeEntryAt(es[i], firstId + i) && es[i].target == taskName
    ensures Distinct(Pairs(es)) && Elems(Pairs(es)) == IntoPairs(dependencies, taskName)
  {
    es := [];
    var edgeId := firstId;
    var pending := dependencies;
    while pending != {}
      invariant pending <= dependencies
      invariant edgeId == firstId + |es|
      invariant forall i :: 0 <= i < |es| ==> EdgeEntryAt(es[i], firstId + i) && es[i].target == taskName
      invariant Distinct(Pairs(es))
      invariant Elems(Pairs(es)) == IntoPairs(dependencies - pending, taskName)
      decreases pending
    {
      var dependency :| dependency in pending;
      var e := EdgeJson(EdgeId(edgeId), dependency, taskName, "dependency", "depends_on");
      PairsExtend(es, e, dependencies, pending);
      EntriesExtend(es, e, firstId, taskName);
      es := es + [e];
      edgeId := edgeId + 1;
      pending := pending - {dependency};
    }
    assert dependencies - pending == dependencies;
    DistinctCard(Pairs(es));
    IntoPairsCard(dependencies, taskName);
  }

  /** The edge part of to_json: for each node in key order, one edge per dependency. */
  method EdgeEntries(names: seq<string>, nodes: map<string, DAGNode>) returns (edges: seq<EdgeJson>)
    requires KeyOrder(names, nodes)
    ensures forall i :: 0 <= i < |edges| ==> EdgeEntryAt(edges[i], i)
    ensures Distinct(Pairs(edges)) && Elems(Pairs(edges)) == EdgePairs(nodes, nodes.Keys)
    ensures |edges| == TotalDependencies(nodes, names)
  {
    edges := [];
    assert EdgesSoFar(names, nodes, 0, edges);
    for k := 0 to |names|
      invariant EdgesSoFar(names, nodes, k, edges)
    {
      var es := EdgesInto(names[k], nodes[names[k]].dependencies, |edges|);
      EdgesSoFarStep(names, nodes, k, edges, es);
      edges := edges + es;
    }
    TakeAll(names);
    KeyOrderSize(names, nodes);
  }

  /** The loop state of EdgeEntries after the first `k` names. */
  ghost predicate EdgesSoFar(names: seq<string>, nodes: map<string, DAGNode>, k: int, edges: seq<EdgeJson>)
    requires KeyOrder(names, nodes) && 0 <= k <= |names|
  {
    |edges| == TotalDependencies(nodes, names[..k]) &&
    (forall i :: 0 <= i < |edges| ==> EdgeEntryAt(edges[i], i)) &&
    Distinct(Pairs(edges)) &&
    Elems(Pairs(edges)) == EdgePairs(nodes, Elems(names[..k]))
  }

  lemma {:induction false} EdgesSoFarStep(names: seq<string>, nodes: map<string, DAGNode>, k: int,
                                          edges: seq<EdgeJson>, es: seq<EdgeJson>)
    requires KeyOrder(names, nodes) && 0 <= k < |names|
    requires EdgesSoFar(names, nodes, k, edges)
    requires |es| == |nodes[names[k]].dependencies|
    requires forall i :: 0 <= i < |es| ==> EdgeEntryAt(es[i], |edges| + i)
    requires Distinct(Pairs(es)) && Elems(Pairs(es)) == IntoPairs(nodes[names[k]].dependencies, names[k])
    ensures EdgesSoFar(names, nodes, k + 1, edges + es)
  {
    EdgeStep(names, nodes, k, Pairs(edges), Pairs(es));
    TotalDependenciesStep(nodes, names, k);
    PairsAppend(edges, es);
    EntriesConcat(edges, es);
  }

  lemma {:induction false} TotalDependenciesStep(nodes: map<string, DAGNode>, names: seq<string>, k: int)
    requires forall n :: n in names ==> n in nodes
    requires 0 <= k < |names|
    ensures TotalDependencies(nodes, names[..k + 1]) == TotalDependencies(nodes, names[..k]) + |nodes[names[k]].dependencies|
  {
    assert names[..k + 1][..k] == names[..k];
  }

  /** Entries numbered from 0 followed by entries numbered on from there are numbered from 0. */
  lemma {:induction false} EntriesConcat(before: seq<EdgeJson>, es: seq<EdgeJson>)
    requires forall i :: 0 <= i < |before| ==> EdgeEntryAt(before[i], i)
    requires forall i :: 0 <= i < |es| ==> EdgeEntryAt(es[i], |before| + i)
    ensures forall i :: 0 <= i < |before + es| ==> EdgeEntryAt((before + es)[i], i)
  {
    forall i | 0 <= i < |before + es| ensures EdgeEntryAt((before + es)[i], i) {
      if i < |before| {
        assert (before + es)[i] == before[i];
      } else {
        assert (before + es)[i] == es[i - |before|];
      }
    }
  }

  /** One step of EdgeEntries: the edges into names[k] are new and extend the pairs recorded so far. */
  lemma {:induction false} EdgeStep(names: seq<string>, nodes: map<string, DAGNode>, k: int,
                                    before: seq<(string, string)>, into: seq<(string, string)>)
    requires KeyOrder(names, nodes) && 0 <= k < |names|
    requires Distinct(before) && Elems(before) == EdgePairs(nodes, Elems(names[..k]))
    requires Distinct(into) && Elems(into) == IntoPairs(nodes[names[k]].dependencies, names[k])
    ensures Distinct(before + into)
    ensures Elems(before + into) == EdgePairs(nodes, Elems(names[..k + 1]))
  {
    var taskName := names[k];
    assert names[..k + 1] == names[..k] + [taskName];
    assert Elems(names[..k + 1]) == Elems(names[..k]) + {taskName};
    assert taskName !in names[..k] by {
      forall i | 0 <= i < k ensures names[..k][i] != taskName {
        DistinctAt(names, i, k);
      }
    }
    forall x | x in before ensures x !in into {
      assert x in Elems(before);
      assert x.1 in Elems(names[..k]);
    }
    DistinctAppend(before, into);
    assert Elems(before + into) == Elems(before) + Elems(into);
    assert EdgePairs(nodes, Elems(names[..k + 1]))
        == EdgePairs(nodes, Elems(names[..k])) + IntoPairs(nodes[taskName].dependencies, taskName);
  }

  /** The in-degree count topological_sort starts from: each node's number of dependencies. */
  method InDegrees(names: seq<string>, nodes: map<string, DAGNode>) returns (inDegrees: map<string, int>)
    requires KeyOrder(names, nodes)
    ensures inDegrees.Keys == nodes.Keys
    ensures forall n :: n in inDegrees ==> inDegrees[n] == |nodes[n].dependencies|
  {
    inDegrees := map[];
    for i := 0 to |names|
      invariant forall n :: n in inDegrees <==> n in names[..i]
      invariant forall n :: n in inDegrees ==> inDegrees[n] == |nodes[n].dependencies|
    {
      assert names[..i + 1] == names[..i] + [names[i]];
      inDegrees := inDegrees[names[i] := |nodes[names[i]].dependencies|];
    }
    assert names[..|names|] == names;
  }

  /** The main loop of Kahn's algorithm: emit the head of the queue and release its dependents, until the queue is empty. */
  method KahnLoop(nodes: map<string, DAGNode>, inDegrees0: map<string, int>, queue0: seq<string>)
    returns (result: seq<string>, inDegrees: map<string, int>)
    requires Closed(nodes) && Symmetric(nodes) && KahnState(nodes, inDegrees0, queue0, 0, {})
    ensures KahnState(nodes, inDegrees, result, |result|, {})
  {
    result, inDegrees := [], inDegrees0;
    var queue := queue0;
    assert result + queue == queue;
    while queue != []
      invariant KahnState(nodes, inDegrees, result + queue, |result|, {})
      decreases |nodes| - |result|
    {
      ghost var rq := result + queue;
      KahnPop(nodes, inDegrees, rq, |result|);
      KahnBound(nodes, inDegrees, rq, |result|);
      var current := queue[0];
      ShiftHead(result, queue);
      queue := queue[1..];
      ghost var k := |result|;
      result := result + [current];
      assert result + queue == rq && |result| == k + 1;
      inDegrees, queue := ReleaseDependents(nodes, inDegrees, result, queue, nodes[current].dependents);
    }
    assert result + queue == result;
  }

  /** The inner loop of Kahn's algorithm: decrement each pending dependent and queue those left with nothing to wait on. */
  method ReleaseDependents(nodes: map<string, DAGNode>, inDegrees0: map<string, int>, result: seq<string>,
                           queue0: seq<string>, pending0: set<string>)
    returns (inDegrees: map<string, int>, queue: seq<string>)
    requires pending0 <= nodes.Keys && KahnState(nodes, inDegrees0, result + queue0, |result|, pending0)
    ensures KahnState(nodes, inDegrees, result + queue, |result|, {})
  {
    inDegrees, queue := inDegrees0, queue0;
    var pending := pending0;
    while pending != {}
      invariant pending <= nodes.Keys
      invariant KahnState(nodes, inDegrees, result + queue, |result|, pending)
      decreases pending
    {
      var dependent :| dependent in pending;
      KahnRelease(nodes, inDegrees, result + queue, |result|, pending, dependent);
      pending := pending - {dependent};
      inDegrees := inDegrees[dependent := inDegrees[dependent] - 1];
      if inDegrees[dependent] == 0 {
        AppendAssoc(result, queue, dependent);
        queue := queue + [dependent];
      }
    }
  }

  /** Every node is emitted at most once, so fewer than all nodes are emitted while one is still queued. */
  lemma {:induction false} KahnBound(nodes: map<string, DAGNode>, inDegrees: map<string, int>, rq: seq<string>, k: int)
    requires KahnState(nodes, inDegrees, rq, k, {}) && k < |rq|
    ensures k < |nodes|
  {
    DistinctCard(rq);
    SubsetCard(Elems(rq), nodes.Keys);
  }

  /** add_task on the value of the graph: a missing name gets an empty node. */
  function WithTask(nodes: map<string, DAGNode>, name: string): (r: map<string, DAGNode>)
    ensures r.Keys == nodes.Keys + {name}
  {
    if name in nodes then nodes else nodes[name := EmptyNode(name)]
  }

  /** add_task stores the new node under its own name and changes no lookup. */
  lemma {:induction false} WithTaskLookups(nodes: map<string, DAGNode>, name: string)
    requires forall n :: n in nodes ==> nodes[n].taskName == n
    ensures forall n :: n in WithTask(nodes, name) ==> WithTask(nodes, name)[n].taskName == n
    ensures forall n :: DepsOf(WithTask(nodes, name), n) == DepsOf(nodes, n)
    ensures forall n :: DependentsOf(WithTask(nodes, name), n) == DependentsOf(nodes, n)
  {
  }

  /** The key order after add_task(name): a new name goes to the end. */
  function AddName(names: seq<string>, nodes: map<string, DAGNode>, name: string): seq<string>
  {
    if name in nodes then names else names + [name]
  }

  /** add_task keeps the key order and the two graph invariants. */
  lemma {:induction false} TaskKeepsInvariant(names: seq<string>, nodes: map<string, DAGNode>, name: string)
    requires KeyOrder(names, nodes) && Closed(nodes) && Symmetric(nodes)
    ensures KeyOrder(AddName(names, nodes, name), WithTask(nodes, name))
    ensures Closed(WithTask(nodes, name)) && Symmetric(WithTask(nodes, name))
  {
    if name !in nodes {
      DistinctSnoc(names, name);
    }
    WithTaskLookups(nodes, name);
  }

  /** The key order after add_task(a) and add_task(b). */
  lemma {:induction false} NamesAfterBoth(s0: seq<string>, n0: map<string, DAGNode>, a: string, b: string)
    requires Closed(n0)
    ensures AddName(AddName(s0, n0, a), WithTask(n0, a), b)
            == s0 + (if a in n0 then [] else [a]) + (if b in n0 || b == a then [] else [b])
  {
    var s1 := AddName(s0, n0, a);
    assert s1 == s0 + (if a in n0 then [] else [a]) by {
      if a in n0 { AppendEmpty(s0); }
    }
    assert (b in WithTask(n0, a)) == (b in n0 || b == a);
    if b in n0 || b == a {
      AppendEmpty(s1);
    }
  }

  /**
   * add_dependency(a, b) on the values of the key order and the graph: the
   * invariants hold afterwards, and the new state is the old one plus the
   * two nodes (if new) and the edge.
   */
  lemma {:induction false} DependencyOnValues(s0: seq<string>, n0: map<string, DAGNode>, a: string, b: string)
    requires Invariant(s0, n0)
    ensures Invariant(AddName(AddName(s0, n0, a), WithTask(n0, a), b), WithEdge(WithTask(WithTask(n0, a), b), a, b))
    ensures DependencyAdded(s0, n0, a, b, AddName(AddName(s0, n0, a), WithTask(n0, a), b),
                            WithEdge(WithTask(WithTask(n0, a), b), a, b))
  {
    var s1, n1 := AddName(s0, n0, a), WithTask(n0, a);
    TaskKeepsInvariant(s0, n0, a);
    var s2, n2 := AddName(s1, n1, b), WithTask(n1, b);
    TaskKeepsInvariant(s1, n1, b);
    AddEdgeKeepsInvariant(n2, a, b);
    EdgeAdded(n0, a, b);
    NamesAfterBoth(s0, n0, a, b);
    KeyOrderSameKeys(s2, n2, WithEdge(n2, a, b));
    if a in n0 && b in n0[a].dependencies {
      assert b in n0;
      AppendEmpty(s0);
    }
  }

  lemma {:induction false} KeyOrderSameKeys(names: seq<string>, m1: map<string, DAGNode>, m2: map<string, DAGNode>)
    requires KeyOrder(names, m1) && m1.Keys == m2.Keys
    ensures KeyOrder(names, m2)
  {
    assert forall n :: n in m2 <==> n in m1;
  }

  lemma {:induction false} KeysPlusTwo(keys: set<string>, a: string, b: string)
    ensures (keys + {a}) + {b} == keys + {a, b}
  {
  }

  /**
   * add_dependency(a, b) on the value of the graph: add_task(a), add_task(b),
   * then the edge. Afterwards a node's sets are the old ones, or empty for a
   * new node, plus the new edge; and an edge already recorded changes nothing.
   */
  lemma {:induction false} EdgeAdded(n0: map<string, DAGNode>, a: string, b: string)
    requires Closed(n0) && Symmetric(n0)
    ensures var n2 := WithTask(WithTask(n0, a), b);
            WithEdge(n2, a, b).Keys == n0.Keys + {a, b} &&
            (forall n :: n in WithEdge(n2, a, b) ==>
               WithEdge(n2, a, b)[n] == DAGNode(n, DepsOf(n0, n) + (if n == a then {b} else {}),
                                                   DependentsOf(n0, n) + (if n == b then {a} else {}))) &&
            (a in n0 && b in n0[a].dependencies ==> WithEdge(n2, a, b) == n0)
  {
    var n1 := WithTask(n0, a);
    WithTaskLookups(n0, a);
    var n2 := WithTask(n1, b);
    WithTaskLookups(n1, b);
    var r := WithEdge(n2, a, b);
    assert r.Keys == n0.Keys + {a, b} by {
      assert r.Keys == n2.Keys == (n0.Keys + {a}) + {b};
      KeysPlusTwo(n0.Keys, a, b);
    }
    forall n | n in r
      ensures r[n] == DAGNode(n, DepsOf(n0, n) + (if n == a then {b} else {}),
                                 DependentsOf(n0, n) + (if n == b then {a} else {}))
    {
      assert DepsOf(n2, n) == DepsOf(n0, n) && DependentsOf(n2, n) == DependentsOf(n0, n);
    }
    if a in n0 && b in n0[a].dependencies {
      assert n2 == n0;
      EdgeAlreadyThere(n0, a, b);
    }
  }

  /** add_dependency for an edge already recorded leaves the graph as it was. */
  lemma {:induction false} EdgeAlreadyThere(nodes: map<string, DAGNode>, a: string, b: string)
    requires Closed(nodes) && Symmetric(nodes) && a in nodes && b in nodes && b in nodes[a].dependencies
    ensures WithEdge(nodes, a, b) == nodes
  {
    var r := WithEdge(nodes, a, b);
    assert a in nodes[b].dependents;
    forall n | n in r ensures r[n] == nodes[n] {
      if n == a {
        assert nodes[n].dependencies + {b} == nodes[n].dependencies;
      }
      if n == b {
        assert nodes[n].dependents + {a} == nodes[n].dependents;
      }
    }
  }

  // ---------------------------------------------------------------------------

  /**
   * The state after add_dependency(a, b) from (s0, n0): both nodes exist, a new
   * name goes to the end of the key order (a before b), b joins a's
   * dependencies and a joins b's dependents, nothing else changes, and adding
   * an edge already recorded changes nothing at all.
   */
  ghost predicate DependencyAdded(s0: seq<string>, n0: map<string, DAGNode>, a: string, b: string,
                                  s: seq<string>, r: map<string, DAGNode>)
  {
    r.Keys == n0.Keys + {a, b} &&
    s == s0 + (if a in n0 then [] else [a]) + (if b in n0 || b == a then [] else [b]) &&
    (forall n :: n in r ==>
       r[n] == DAGNode(n, DepsOf(n0, n) + (if n == a then {b} else {}),
                          DependentsOf(n0, n) + (if n == b then {a} else {}))) &&
    (a in n0 && b in n0[a].dependencies ==> s == s0 && r == n0)
  }

  /** The invariant of a graph: its key order, and the two edge-set invariants. */
  ghost predicate Invariant(names: seq<string>, nodes: map<string, DAGNode>)
  {
    KeyOrder(names, nodes) && Closed(nodes) && Symmetric(nodes)
  }

  class TaskDependencyDAG {
    var names: seq<string>
    var nodes: map<string, DAGNode>

    ghost predicate Valid()
      reads this
    {
      Invariant(names, nodes)
    }

    constructor()
      ensures Valid() && names == [] && nodes == map[]
    {
      names := [];
      nodes := map[];
    }

    /** add_task: idempotent; a new name gets an isolated node at the end of the key order. */
    method AddTask(taskName: string) returns (node: DAGNode)
      requires Valid()
      modifies this
      ensures Valid()
      ensures taskName in nodes && node == nodes[taskName]
      ensures names == AddName(old(names), old(nodes), taskName)
      ensures nodes == WithTask(old(nodes), taskName)
    {
      TaskKeepsInvariant(names, nodes, taskName);
      if taskName !in nodes {
        nodes := nodes[taskName := DAGNode(taskName, {}, {})];
        names := names + [taskName];
      }
      node := nodes[taskName];
    }

    /**
     * add_dependency(dependentTask, dependencyTask): both nodes exist afterwards,
     * dependencyTask joins dependentTask's dependencies and dependentTask joins
     * dependencyTask's dependents; nothing else changes.
     */
    method AddDependency(dependentTask: string, dependencyTask: string)
      requires Valid()
      modifies this
      ensures Valid()
      ensures DependencyAdded(old(names), old(nodes), dependentTask, dependencyTask, names, nodes)
    {
      DependencyOnValues(names, nodes, dependentTask, dependencyTask);
      var depNode := AddTask(dependentTask);
      var prereqNode := AddTask(dependencyTask);
      nodes := WithEdge(nodes, dependentTask, dependencyTask);
    }

    /**
     * topological_sort: Kahn's algorithm. The order is a permutation of the
     * nodes. The cycle warning is printed exactly when the graph has a cycle;
     * without one every node follows its dependencies, and with one the nodes
     * Kahn's loop could not reach are appended in insertion order.
     */
    method TopologicalSort() returns (order: seq<string>, cycleWarning: bool)
      requires Valid()
      ensures |order| == |names| && Distinct(order) && Elems(order) == nodes.Keys
      ensures names == [] ==> order == [] && !cycleWarning
      ensures cycleWarning <==> HasCycle(nodes)
      ensures !cycleWarning ==> DependenciesFirst(nodes, order)
      ensures exists k :: 0 <= k <= |order| && DependenciesFirst(nodes, order[..k]) &&
                          order[k..] == Unvisited(names, order[..k]) && WaitsInside(nodes, Elems(order[k..]))
    {
      if |nodes| == 0 {
        KeyOrderSize(names, nodes);
        order, cycleWarning := [], false;
        assert order[0..] == Unvisited(names, order[..0]);
        assert WaitsInside(nodes, Elems(order[0..]));
        return;
      }
      var inDegrees := InDegrees(names, nodes);
      var queue := ZeroDegreeNames(names, inDegrees);
      KahnStart(nodes, names, inDegrees);
      var result;
      result, inDegrees := KahnLoop(nodes, inDegrees, queue);
      KahnOutcome(nodes, names, inDegrees, result);
      cycleWarning := |result| != |nodes|;
      if cycleWarning {
        var remaining := Unvisited(names, result);
        result := result + remaining;
      }
      order := result;
    }

    /**
     * to_json, without the generated_at stamp: one entry per node in
     * topological order with its position and set sizes, one edge per recorded
     * (dependency, dependent) pair, and the totals.
     */
    method ToJson() returns (doc: DagJson)
      requires Valid()
      ensures forall n :: n in doc.metadata.topologicalOrder ==> n in nodes
      ensures |doc.nodes| == |names| && doc.nodes == NodeEntries(nodes, doc.metadata.topologicalOrder)
      ensures Distinct(doc.metadata.topologicalOrder) && Elems(doc.metadata.topologicalOrder) == nodes.Keys
      ensures forall i :: 0 <= i < |doc.edges| ==> EdgeEntryAt(doc.edges[i], i)
      ensures Distinct(Pairs(doc.edges)) && Elems(Pairs(doc.edges)) == EdgePairs(nodes, nodes.Keys)
      ensures doc.metadata.totalNodes == |nodes|
      ensures doc.metadata.totalEdges == |doc.edges| == TotalDependencies(nodes, names)
      ensures !HasCycle(nodes) ==> DependenciesFirst(nodes, doc.metadata.topologicalOrder)
      ensures var order := doc.metadata.topologicalOrder;
              exists k :: 0 <= k <= |order| && DependenciesFirst(nodes, order[..k]) &&
                          order[k..] == Unvisited(names, order[..k]) && WaitsInside(nodes, Elems(order[k..]))
    {
      var order, _ := TopologicalSort();
      var entries := NodeEntriesOf(nodes, order);
      var edges := EdgeEntries(names, nodes);
      doc := DagJson(entries, edges, DagMetadata(|nodes|, |edges|, order));
    }
  }
}
