/**
 * What the subtour detector of the lazy-constraint callback computes, stated
 * as predicates over a 0/1 arc assignment, and the facts proved about it:
 * traces are chains of selected arcs, the decomposition is determined by the
 * assignment, covers every node, and when the assignment is a permutation
 * matrix it splits the nodes into disjoint directed cycles.
 */
module Cycles {
  import opened Sets

  /** An arc (tail, head), as the C++ pair<int,int>. */
  type Arc = (int, int)

  /** sol[i][j] holds when arc (i, j) is selected. */
  type Matrix = seq<seq<bool>>

  type Path = seq<Arc>

  predicate IsSquare(sol: Matrix, n: nat)
  {
    |sol| == n && forall i :: 0 <= i < n ==> |sol[i]| == n
  }

  /** Some entry of row is true. */
  predicate AnyTrue(row: seq<bool>)
  {
    exists j :: 0 <= j < |row| && row[j]
  }

  /** Every node has at least one selected outgoing arc. */
  predicate HasOut(sol: Matrix, n: nat)
    requires IsSquare(sol, n)
  {
    forall i :: 0 <= i < n ==> AnyTrue(sol[i])
  }

  /** The largest index of row holding true, or -1 when there is none. */
  function LastTrue(row: seq<bool>): (r: int)
    ensures -1 <= r < |row|
    ensures r >= 0 ==> row[r]
    ensures forall j :: r < j < |row| ==> !row[j]
  {
    if row == [] then -1
    else if row[|row| - 1] then |row| - 1
    else LastTrue(row[..|row| - 1])
  }

  /** The node the tracer moves to from v: the head of v's selected arc with the largest head. */
  function Succ(sol: Matrix, n: nat, v: int): int
    requires IsSquare(sol, n) && 0 <= v < n
  {
    LastTrue(sol[v])
  }

  lemma SuccSelected(sol: Matrix, n: nat, v: int)
    requires IsSquare(sol, n) && HasOut(sol, n) && 0 <= v < n
    ensures 0 <= Succ(sol, n, v) < n && sol[v][Succ(sol, n, v)]
    ensures forall j :: Succ(sol, n, v) < j < n ==> !sol[v][j]
  {
    assert AnyTrue(sol[v]);
  }

  /** A selected head with nothing selected after it in the row is the successor. */
  lemma SuccIs(sol: Matrix, n: nat, v: int, j: int)
    requires IsSquare(sol, n) && 0 <= v < n && 0 <= j < n && sol[v][j]
    requires forall k :: j < k < n ==> !sol[v][k]
    ensures Succ(sol, n, v) == j
  {
  }

  /** The nodes a path leaves from: the C++ `reached` set once the path is closed. */
  function Tails(path: Path): set<int>
  {
    set a | a in path :: a.0
  }

  /**
   * path is what the tracer produces when it starts at path[0].0: every arc
   * goes from a node to its successor, each arc starts where the previous one
   * ended, no node is left twice, and the last arc returns to a node already
   * on the path (the arc that closes the cycle).
   */
  predicate IsTrace(sol: Matrix, n: nat, path: Path)
    requires IsSquare(sol, n)
  {
    |path| > 0 && IsWalk(sol, n, path) && path[|path| - 1].1 in Tails(path)
  }

  /**
   * path is a prefix of what the tracer produces: every arc goes from a node
   * to its successor, each arc starts where the previous one ended, and no
   * node is left twice.
   */
  predicate IsWalk(sol: Matrix, n: nat, path: Path)
    requires IsSquare(sol, n)
  {
    (forall k :: 0 <= k < |path| ==> 0 <= path[k].0 < n && path[k].1 == Succ(sol, n, path[k].0)) &&
    (forall k :: 0 < k < |path| ==> path[k].0 == path[k - 1].1) &&
    (forall k, l :: 0 <= k < l < |path| ==> path[k].0 != path[l].0)
  }

  /** One more step of the tracer, from the end of a walk to a node it has not left, extends the walk. */
  lemma WalkSnoc(sol: Matrix, n: nat, path: Path, current: int)
    requires IsSquare(sol, n) && IsWalk(sol, n, path) && 0 <= current < n
    requires path != [] ==> path[|path| - 1].1 == current
    requires current !in Tails(path)
    ensures IsWalk(sol, n, path + [(current, Succ(sol, n, current))])
    ensures Tails(path + [(current, Succ(sol, n, current))]) == Tails(path) + {current}
  {
    var a := (current, Succ(sol, n, current));
    SnocSucc(sol, n, path, a);
    SnocChain(path, a);
    SnocDistinct(path, a);
    TailsSnoc(path, a);
  }

  lemma SnocSucc(sol: Matrix, n: nat, path: Path, a: Arc)
    requires IsSquare(sol, n)
    requires forall k :: 0 <= k < |path| ==> 0 <= path[k].0 < n && path[k].1 == Succ(sol, n, path[k].0)
    requires 0 <= a.0 < n && a.1 == Succ(sol, n, a.0)
    ensures forall k :: 0 <= k < |path + [a]| ==> 0 <= (path + [a])[k].0 < n && (path + [a])[k].1 == Succ(sol, n, (path + [a])[k].0)
  {
  }

  lemma SnocChain(path: Path, a: Arc)
    requires forall k :: 0 < k < |path| ==> path[k].0 == path[k - 1].1
    requires path != [] ==> path[|path| - 1].1 == a.0
    ensures forall k :: 0 < k < |path + [a]| ==> (path + [a])[k].0 == (path + [a])[k - 1].1
  {
  }

  lemma SnocDistinct(path: Path, a: Arc)
    requires forall k, l :: 0 <= k < l < |path| ==> path[k].0 != path[l].0
    requires a.0 !in Tails(path)
    ensures forall k, l :: 0 <= k < l < |path + [a]| ==> (path + [a])[k].0 != (path + [a])[l].0
  {
    forall k | 0 <= k < |path| ensures path[k].0 != a.0 {
      assert path[k] in path;
    }
  }

  lemma TailsSnoc(path: Path, a: Arc)
    ensures Tails(path + [a]) == Tails(path) + {a.0}
  {
    var ext := path + [a];
    forall b | b in ext ensures b in path || b == a {
      var k :| 0 <= k < |ext| && ext[k] == b;
    }
  }

  /** The nodes reached by a sequence of paths. */
  function Covered(paths: seq<Path>): set<int>
  {
    if paths == [] then {} else Covered(paths[..|paths| - 1]) + Tails(paths[|paths| - 1])
  }

  /**
   * paths is the decomposition computed by the callback: each path is a trace
   * that starts at the smallest node no earlier path reached, and together the
   * paths reach every node.
   */
  predicate IsDecomposition(sol: Matrix, n: nat, paths: seq<Path>)
    requires IsSquare(sol, n)
  {
    AllWellPlaced(sol, n, paths) && Covered(paths) == Range(n)
  }

  /** Each path is a trace from the smallest node the paths before it did not reach. */
  predicate AllWellPlaced(sol: Matrix, n: nat, paths: seq<Path>)
    requires IsSquare(sol, n)
  {
    forall p {:trigger WellPlaced(sol, n, paths, p)} :: 0 <= p < |paths| ==> paths[p] != [] && WellPlaced(sol, n, paths, p)
  }

  /** The p-th path is a trace from the smallest node the paths before it did not reach. */
  predicate WellPlaced(sol: Matrix, n: nat, paths: seq<Path>, p: int)
    requires IsSquare(sol, n) && 0 <= p < |paths|
  {
    IsTrace(sol, n, paths[p]) && IsLeast(paths[p][0].0, Range(n) - Covered(paths[..p]))
  }

  /** Row i of sol holds exactly one true entry. */
  predicate OneInRow(sol: Matrix, n: nat, i: int)
    requires IsSquare(sol, n) && 0 <= i < n
  {
    exists j :: 0 <= j < n && sol[i][j] && forall j' :: 0 <= j' < n && sol[i][j'] ==> j' == j
  }

  /** Column j of sol holds exactly one true entry. */
  predicate OneInColumn(sol: Matrix, n: nat, j: int)
    requires IsSquare(sol, n) && 0 <= j < n
  {
    exists i :: 0 <= i < n && sol[i][j] && forall i' :: 0 <= i' < n && sol[i'][j] ==> i' == i
  }

  /** sol is a permutation matrix: one selected arc out of and one into every node. */
  predicate IsPermutation(sol: Matrix, n: nat)
  {
    IsSquare(sol, n) &&
    (forall i :: 0 <= i < n ==> OneInRow(sol, n, i)) &&
    (forall j :: 0 <= j < n ==> OneInColumn(sol, n, j))
  }

  // ---------------------------------------------------------------------------
  // Traces

  lemma PermutationHasOut(sol: Matrix, n: nat)
    requires IsPermutation(sol, n)
    ensures HasOut(sol, n)
  {
    forall i | 0 <= i < n ensures AnyTrue(sol[i]) {
      assert OneInRow(sol, n, i);
    }
  }

  /** Every arc of a trace is a selected arc. */
  lemma TraceSelected(sol: Matrix, n: nat, path: Path)
    requires IsSquare(sol, n) && IsTrace(sol, n, path)
    ensures forall k :: 0 <= k < |path| ==> 0 <= path[k].1 < n && sol[path[k].0][path[k].1]
  {
    forall k | 0 <= k < |path| ensures 0 <= path[k].1 < n && sol[path[k].0][path[k].1] {
      if k + 1 < |path| {
        assert path[k + 1].0 == path[k].1;
      } else {
        var a :| a in path && a.0 == path[k].1;
      }
    }
  }

  lemma {:induction false} DistinctTailsCard(path: Path)
    requires forall k, l :: 0 <= k < l < |path| ==> path[k].0 != path[l].0
    ensures |Tails(path)| == |path|
  {
    if path != [] {
      var init := path[..|path| - 1];
      DistinctTailsCard(init);
      assert Tails(path) == Tails(init) + {path[|path| - 1].0};
      assert path[|path| - 1].0 !in Tails(init);
    } else {
      assert Tails(path) == {};
    }
  }

  /** A trace leaves each of its nodes once, so it has at most n arcs. */
  lemma TraceLength(sol: Matrix, n: nat, path: Path)
    requires IsSquare(sol, n) && IsTrace(sol, n, path)
    ensures |Tails(path)| == |path| <= n
  {
    DistinctTailsCard(path);
    BoundedCard(Tails(path), n);
  }

  /** The tracer is deterministic: a trace is fixed by its first node. */
  lemma TraceUnique(sol: Matrix, n: nat, p1: Path, p2: Path)
    requires IsSquare(sol, n) && IsTrace(sol, n, p1) && IsTrace(sol, n, p2)
    requires p1[0].0 == p2[0].0
    ensures p1 == p2
  {
    var m := if |p1| < |p2| then |p1| else |p2|;
    var k := 0;
    while k < m
      invariant 0 <= k <= m
      invariant forall l :: 0 <= l < k ==> p1[l] == p2[l]
    {
      if k > 0 {
        assert p1[k].0 == p1[k - 1].1 == p2[k - 1].1 == p2[k].0;
      }
      k := k + 1;
    }
    assert p1[..m] == p2[..m];
    ClosesOnlyAtEnd(sol, n, p1, m);
    ClosesOnlyAtEnd(sol, n, p2, m);
    assert p1 == p1[..m] && p2 == p2[..m];
  }

  /** Only the last arc of a trace returns to a node the trace has already left. */
  lemma ClosesOnlyAtEnd(sol: Matrix, n: nat, path: Path, m: nat)
    requires IsSquare(sol, n) && IsTrace(sol, n, path) && 0 < m <= |path|
    ensures path[m - 1].1 in Tails(path[..m]) <==> m == |path|
  {
    if m < |path| {
      forall a | a in path[..m] ensures a.0 != path[m - 1].1 {
        var k :| 0 <= k < m && path[..m][k] == a;
        assert path[m].0 == path[m - 1].1;
      }
    } else {
      assert path[..m] == path;
    }
  }

  /**
   * When sol is a permutation matrix the closing arc of a trace returns to
   * its first node, so the trace is a directed cycle.
   */
  lemma PermutationCloses(sol: Matrix, n: nat, path: Path)
    requires IsPermutation(sol, n) && IsTrace(sol, n, path)
    ensures path[|path| - 1].1 == path[0].0
  {
    PermutationHasOut(sol, n);
    var m := |path|;
    var a :| a in path && a.0 == path[m - 1].1;
    var j :| 0 <= j < m && path[j] == a;
    if j > 0 {
      SuccInjective(sol, n, path[m - 1].0, path[j - 1].0);
      assert false;
    }
  }

  /** Under a permutation matrix the successor of a is the head of a's only selected arc. */
  lemma SuccOfPermutation(sol: Matrix, n: nat, a: int)
    requires IsPermutation(sol, n) && 0 <= a < n
    ensures 0 <= Succ(sol, n, a) < n && sol[a][Succ(sol, n, a)]
  {
    assert OneInRow(sol, n, a);
    var j :| 0 <= j < n && sol[a][j] && forall j' :: 0 <= j' < n && sol[a][j'] ==> j' == j;
    assert j <= Succ(sol, n, a);
  }

  /** Under a permutation matrix no two nodes share a successor. */
  lemma SuccInjective(sol: Matrix, n: nat, a: int, b: int)
    requires IsPermutation(sol, n) && 0 <= a < n && 0 <= b < n
    requires Succ(sol, n, a) == Succ(sol, n, b)
    ensures a == b
  {
    SuccOfPermutation(sol, n, a);
    SuccOfPermutation(sol, n, b);
    var s := Succ(sol, n, a);
    assert OneInColumn(sol, n, s);
    var i :| 0 <= i < n && sol[i][s] && forall i' :: 0 <= i' < n && sol[i'][s] ==> i' == i;
    assert a == i && b == i;
  }

  /**
   * Under a permutation matrix the node set of a trace is closed under
   * predecessors: a node whose successor lies on the trace lies on it too.
   */
  lemma PredecessorOnTrace(sol: Matrix, n: nat, path: Path, x: int)
    requires IsPermutation(sol, n) && IsTrace(sol, n, path) && 0 <= x < n
    requires Succ(sol, n, x) in Tails(path)
    ensures x in Tails(path)
  {
    var m := |path|;
    var a :| a in path && a.0 == Succ(sol, n, x);
    var j :| 0 <= j < m && path[j] == a;
    var pred := if j > 0 then j - 1 else m - 1;
    if j == 0 {
      PermutationCloses(sol, n, path);
    }
    assert Succ(sol, n, path[pred].0) == path[j].0;
    SuccInjective(sol, n, x, path[pred].0);
    assert path[pred] in path;
  }

  /** If a trace q meets the node set of trace p, then q's first node is on p. */
  lemma {:induction false} MeetingTraceStartsOn(sol: Matrix, n: nat, p: Path, q: Path, k: nat)
    requires IsPermutation(sol, n) && IsTrace(sol, n, p) && IsTrace(sol, n, q)
    requires k < |q| && q[k].0 in Tails(p)
    ensures q[0].0 in Tails(p)
  {
    if k > 0 {
      assert Succ(sol, n, q[k - 1].0) == q[k].0;
      PredecessorOnTrace(sol, n, p, q[k - 1].0);
      MeetingTraceStartsOn(sol, n, p, q, k - 1);
    }
  }

  // ---------------------------------------------------------------------------
  // Decompositions

  lemma {:induction false} CoveredPrefix(paths: seq<Path>, p: nat, q: nat)
    requires p < q <= |paths|
    ensures Tails(paths[p]) <= Covered(paths[..q])
    decreases q
  {
    var pre := paths[..q];
    assert pre[..q - 1] == paths[..q - 1];
    if p < q - 1 {
      CoveredPrefix(paths, p, q - 1);
    }
  }

  lemma {:induction false} CoveredMember(paths: seq<Path>, x: int) returns (p: nat)
    requires x in Covered(paths)
    ensures p < |paths| && x in Tails(paths[p])
  {
    var init := paths[..|paths| - 1];
    if x in Tails(paths[|paths| - 1]) {
      p := |paths| - 1;
    } else {
      p := CoveredMember(init, x);
      assert init[p] == paths[p];
    }
  }

  /**
   * Under a permutation matrix the decomposition is a set of disjoint directed
   * cycles: each path closes on its first node, node sets of different paths
   * are disjoint, and together they are all nodes.
   */
  lemma CyclePartition(sol: Matrix, n: nat, paths: seq<Path>)
    requires IsPermutation(sol, n) && IsDecomposition(sol, n, paths)
    ensures forall p :: 0 <= p < |paths| ==> |paths[p]| > 0 && paths[p][|paths[p]| - 1].1 == paths[p][0].0
    ensures forall p, q :: 0 <= p < q < |paths| ==> Tails(paths[p]) !! Tails(paths[q])
    ensures Covered(paths) == Range(n)
  {
    forall p | 0 <= p < |paths| ensures |paths[p]| > 0 && paths[p][|paths[p]| - 1].1 == paths[p][0].0 {
      DecompositionAt(sol, n, paths, p);
      PermutationCloses(sol, n, paths[p]);
    }
    forall p, q | 0 <= p < q < |paths| ensures Tails(paths[p]) !! Tails(paths[q]) {
      DecompositionAt(sol, n, paths, p);
      DecompositionAt(sol, n, paths, q);
      if !(Tails(paths[p]) !! Tails(paths[q])) {
        var x :| x in Tails(paths[p]) && x in Tails(paths[q]);
        var a :| a in paths[q] && a.0 == x;
        var k :| 0 <= k < |paths[q]| && paths[q][k] == a;
        MeetingTraceStartsOn(sol, n, paths[p], paths[q], k);
        CoveredPrefix(paths, p, q);
        assert paths[q][0].0 in Covered(paths[..q]);
        assert false;
      }
    }
  }

  /** The paths reached before the p-th one never contain its first node. */
  lemma StartsDistinct(sol: Matrix, n: nat, paths: seq<Path>)
    requires IsSquare(sol, n) && IsDecomposition(sol, n, paths)
    ensures forall p, q :: 0 <= p < q < |paths| ==> paths[q] != [] && paths[q][0].0 !in Tails(paths[p])
    ensures forall p :: 0 <= p < |paths| ==> paths[p] != [] && 0 <= paths[p][0].0 < n
  {
    forall p | 0 <= p < |paths| ensures paths[p] != [] && 0 <= paths[p][0].0 < n {
      DecompositionAt(sol, n, paths, p);
    }
    forall p, q | 0 <= p < q < |paths| ensures paths[q] != [] && paths[q][0].0 !in Tails(paths[p]) {
      DecompositionAt(sol, n, paths, q);
      CoveredPrefix(paths, p, q);
    }
  }

  lemma CoveredSnoc(paths: seq<Path>, path: Path)
    ensures Covered(paths + [path]) == Covered(paths) + Tails(path)
  {
    assert (paths + [path])[..|paths|] == paths;
  }

  lemma DecompositionAt(sol: Matrix, n: nat, paths: seq<Path>, p: nat)
    requires IsSquare(sol, n) && IsDecomposition(sol, n, paths) && p < |paths|
    ensures IsTrace(sol, n, paths[p]) && IsLeast(paths[p][0].0, Range(n) - Covered(paths[..p]))
  {
    assert AllWellPlaced(sol, n, paths);
    assert WellPlaced(sol, n, paths, p);
  }

  /** Two decompositions that agree on their first k paths agree on the next one. */
  lemma DecompositionStep(sol: Matrix, n: nat, a: seq<Path>, b: seq<Path>, k: nat)
    requires IsSquare(sol, n) && IsDecomposition(sol, n, a) && IsDecomposition(sol, n, b)
    requires k < |a| && k < |b| && a[..k] == b[..k]
    ensures a[k] == b[k]
  {
    DecompositionAt(sol, n, a, k);
    DecompositionAt(sol, n, b, k);
    LeastUnique(a[k][0].0, b[k][0].0, Range(n) - Covered(a[..k]));
    TraceUnique(sol, n, a[k], b[k]);
  }

  /** A decomposition is not a proper prefix of another one. */
  lemma DecompositionNoPrefix(sol: Matrix, n: nat, a: seq<Path>, b: seq<Path>)
    requires IsSquare(sol, n) && IsDecomposition(sol, n, a) && IsDecomposition(sol, n, b)
    requires |a| <= |b| && a == b[..|a|]
    ensures |a| == |b|
  {
    forall p | 0 <= p < |b| ensures b[p] != [] && b[p][0].0 !in Covered(b[..p]) && b[p][0].0 in Range(n) {
      DecompositionAt(sol, n, b, p);
    }
  }

  /** The decomposition is determined by the assignment. */
  lemma DecompositionUnique(sol: Matrix, n: nat, a: seq<Path>, b: seq<Path>)
    requires IsSquare(sol, n) && IsDecomposition(sol, n, a) && IsDecomposition(sol, n, b)
    ensures a == b
  {
    var k := 0;
    while k < |a| && k < |b|
      invariant 0 <= k <= |a| && k <= |b|
      invariant a[..k] == b[..k]
    {
      DecompositionStep(sol, n, a, b, k);
      assert a[..k + 1] == a[..k] + [a[k]];
      assert b[..k + 1] == b[..k] + [b[k]];
      k := k + 1;
    }
    if |a| <= |b| {
      assert a == a[..k];
      DecompositionNoPrefix(sol, n, a, b);
    } else {
      assert b == b[..k];
      DecompositionNoPrefix(sol, n, b, a);
    }
  }

  lemma LeastUnique(x: int, y: int, s: set<int>)
    requires IsLeast(x, s) && IsLeast(y, s)
    ensures x == y
  {
  }

  lemma CoveredSingle(path: Path)
    ensures Covered([path]) == Tails(path)
  {
    assert [path][..0] == [];
  }

  lemma SingleCovers(sol: Matrix, n: nat, paths: seq<Path>)
    requires IsSquare(sol, n) && IsDecomposition(sol, n, paths) && |paths| == 1
    ensures IsTrace(sol, n, paths[0]) && Tails(paths[0]) == Range(n)
  {
    assert paths == [paths[0]];
    CoveredSingle(paths[0]);
    DecompositionAt(sol, n, paths, 0);
  }

  /** A trace that reaches every node has exactly n arcs. */
  lemma SpanningTraceLength(sol: Matrix, n: nat, path: Path)
    requires IsSquare(sol, n) && IsTrace(sol, n, path) && Tails(path) == Range(n)
    ensures |path| == n
  {
    TraceLength(sol, n, path);
    RangeCard(n);
  }

  /**
   * A decomposition with a single path is a tour: the path leaves every node
   * exactly once, and under a permutation matrix it returns to its start.
   */
  lemma SinglePathIsTour(sol: Matrix, n: nat, paths: seq<Path>)
    requires IsSquare(sol, n) && IsDecomposition(sol, n, paths) && |paths| == 1
    ensures Tails(paths[0]) == Range(n) && 0 < |paths[0]| == n
    ensures IsPermutation(sol, n) ==> paths[0][n - 1].1 == paths[0][0].0
  {
    SingleCovers(sol, n, paths);
    SpanningTraceLength(sol, n, paths[0]);
    if IsPermutation(sol, n) {
      PermutationCloses(sol, n, paths[0]);
    }
  }

  // ---------------------------------------------------------------------------
  // Tours

  /** cycle is a tour of sol: sol is a permutation matrix and cycle a trace through every node. */
  predicate IsTour(sol: Matrix, n: nat, cycle: Path)
  {
    IsPermutation(sol, n) && IsTrace(sol, n, cycle) && Tails(cycle) == Range(n)
  }

  /** Under a permutation matrix, the successor of a node is the head of any selected arc leaving it. */
  lemma PermutationSuccIs(sol: Matrix, n: nat, a: int, b: int)
    requires IsPermutation(sol, n) && 0 <= a < n && 0 <= b < n && sol[a][b]
    ensures Succ(sol, n, a) == b
  {
    SuccOfPermutation(sol, n, a);
    assert OneInRow(sol, n, a);
  }

  /** A trace that closes on its first node is left by Succ only to nodes on it. */
  lemma SuccStaysOn(sol: Matrix, n: nat, path: Path, x: int)
    requires IsSquare(sol, n) && IsTrace(sol, n, path) && path[|path| - 1].1 == path[0].0
    requires x in Tails(path)
    ensures Succ(sol, n, x) in Tails(path)
  {
    var a :| a in path && a.0 == x;
    var j :| 0 <= j < |path| && path[j] == a;
    if j + 1 < |path| {
      assert path[j + 1] in path;
    } else {
      assert path[0] in path;
    }
  }

  /** A trace that starts on a closed trace never leaves it. */
  lemma {:induction false} WalkStaysOn(sol: Matrix, n: nat, path: Path, q: Path, k: nat)
    requires IsSquare(sol, n) && IsTrace(sol, n, path) && path[|path| - 1].1 == path[0].0
    requires IsTrace(sol, n, q) && q[0].0 in Tails(path) && k < |q|
    ensures q[k].0 in Tails(path)
  {
    if k > 0 {
      WalkStaysOn(sol, n, path, q, k - 1);
      SuccStaysOn(sol, n, path, q[k - 1].0);
      assert q[k].0 == q[k - 1].1;
    }
  }

  /** When sol has a tour, every trace of sol reaches every node. */
  lemma TraceSpans(sol: Matrix, n: nat, path: Path, cycle: Path)
    requires IsTour(sol, n, cycle) && IsTrace(sol, n, path)
    ensures Tails(path) == Range(n)
  {
    PermutationCloses(sol, n, path);
    PermutationCloses(sol, n, cycle);
    assert path[0].0 in Range(n);
    var a :| a in cycle && a.0 == path[0].0;
    var k :| 0 <= k < |cycle| && cycle[k] == a;
    MeetingTraceStartsOn(sol, n, path, cycle, k);
    forall x | x in Range(n) ensures x in Tails(path) {
      var b :| b in cycle && b.0 == x;
      var j :| 0 <= j < |cycle| && cycle[j] == b;
      WalkStaysOn(sol, n, path, cycle, j);
    }
  }

  /** When sol has a tour, the decomposition consists of a single path. */
  lemma TourHasOnePath(sol: Matrix, n: nat, paths: seq<Path>, cycle: Path)
    requires IsTour(sol, n, cycle) && IsDecomposition(sol, n, paths)
    ensures |paths| == 1
  {
    assert cycle[0] in cycle;
    var p := CoveredMember(paths, cycle[0].0);
    DecompositionAt(sol, n, paths, 0);
    TraceSpans(sol, n, paths[0], cycle);
    if |paths| > 1 {
      CoveredPrefix(paths, 0, 1);
      DecompositionAt(sol, n, paths, 1);
      assert false;
    }
  }

  /** Under a permutation matrix, a single path in the decomposition is a tour. */
  lemma OnePathIsTour(sol: Matrix, n: nat, paths: seq<Path>)
    requires IsPermutation(sol, n) && IsDecomposition(sol, n, paths) && |paths| == 1
    ensures IsTour(sol, n, paths[0])
  {
    SingleCovers(sol, n, paths);
  }
}
