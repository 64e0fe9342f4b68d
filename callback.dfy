/**
 * The lazy-constraint callback CycleLazyCallback: it reads the arc values of
 * an integral candidate, splits the nodes into traced paths by following the
 * selected arcs, and, when more than one path is found, adds one subtour
 * elimination cut per path.
 */
module Callback {
  import opened Sets
  import opened Lp
  import opened Cycles

  /**
   * The arc values as the callback reads them: None stands for a read that
   * raised IloException, which the callback catches and ignores.
   */
  type Values = seq<seq<Option<real>>>

  predicate IsSquareValues(vals: Values, n: nat)
  {
    |vals| == n && forall i :: 0 <= i < n ==> |vals[i]| == n
  }

  /** Some value of row can be read and exceeds 0.5. */
  predicate AnyAbove(row: seq<Option<real>>)
  {
    exists j :: 0 <= j < |row| && row[j].Some? && row[j].value > 0.5
  }

  /** Rounds the arc values to the 0/1 matrix sol, the first loop nest of the callback. */
  method Threshold(vals: Values, n: nat) returns (sol: Matrix)
    requires IsSquareValues(vals, n)
    ensures IsSquare(sol, n)
    ensures forall i, j :: 0 <= i < n && 0 <= j < n ==>
              (sol[i][j] <==> vals[i][j].Some? && vals[i][j].value > 0.5)
  {
    sol := [];
    for i := 0 to n
      invariant |sol| == i
      invariant forall a :: 0 <= a < i ==> |sol[a]| == n
      invariant forall a, b :: 0 <= a < i && 0 <= b < n ==>
                  (sol[a][b] <==> vals[a][b].Some? && vals[a][b].value > 0.5)
    {
      var row := seq(n, _ => false);
      for j := 0 to n
        invariant |row| == n
        invariant forall b :: 0 <= b < j ==> (row[b] <==> vals[i][b].Some? && vals[i][b].value > 0.5)
        invariant forall b :: j <= b < n ==> !row[b]
      {
        match vals[i][j]
        case Some(v) =>
          if v > 0.5 {
            row := row[j := true];
          }
        case None =>
      }
      sol := sol + [row];
    }
  }

  /** The inner for loop: the head of the last selected arc leaving current. */
  method NextNode(sol: Matrix, n: nat, current: int) returns (next: int)
    requires IsSquare(sol, n) && 0 <= current < n
    requires AnyTrue(sol[current])
    ensures next == Succ(sol, n, current)
    ensures 0 <= next < n && sol[current][next]
    ensures forall j :: next < j < n ==> !sol[current][j]
  {
    var row := sol[current];
    next := -1;
    for i := 0 to n
      invariant next == LastTrue(row[..i])
    {
      assert row[..i + 1][..i] == row[..i];
      if row[i] {
        next := i;
      }
    }
    assert row[..n] == row;
  }

  /**
   * One iteration of the outer while loop: start at the smallest unreached
   * node and follow selected arcs until the walk comes back to a node of the
   * current path (the do ... while(!find_cycle) loop).
   */
  method TracePath(sol: Matrix, n: nat, unreached: set<int>) returns (path: Path, left: set<int>)
    requires IsSquare(sol, n) && HasOut(sol, n)
    requires unreached != {} && forall u :: u in unreached ==> 0 <= u < n
    ensures IsTrace(sol, n, path)
    ensures IsLeast(path[0].0, unreached)
    ensures left == unreached - Tails(path)
  {
    // The smallest node of unreached, the witness that lets the :| below pick it.
    ghost var least := Least(unreached);
    var current :| IsLeast(current, unreached);
    assert IsLeast(current, unreached);
    ghost var start := current;
    var reached := {current};
    left := unreached - {current};
    path := [];
    var findCycle := false;
    while !findCycle
      invariant !findCycle ==> Walking(sol, n, start, path, current, reached)
      invariant findCycle ==> IsTrace(sol, n, path) && path[0].0 == start && reached == Tails(path)
      invariant left == unreached - reached
      decreases if findCycle then 0 else n + 1 - |reached|
    {
      WalkingCard(sol, n, start, path, current, reached);
      var next := NextNode(sol, n, current);
      WalkStep(sol, n, start, path, current, reached, next);
      if next in reached {
        path := path + [(current, next)];
        findCycle := true;
      } else {
        RemoveReached(unreached, reached, left, next);
        reached := reached + {next};
        left := left - {next};
        path := path + [(current, next)];
        current := next;
      }
    }
  }

  /**
   * The state of the tracer before it moves on from current: path is a walk
   * from start that ends at current, and reached holds the nodes it left and
   * current.
   */
  ghost predicate Walking(sol: Matrix, n: nat, start: int, path: Path, current: int, reached: set<int>)
    requires IsSquare(sol, n)
  {
    0 <= current < n && IsWalk(sol, n, path) &&
    reached == Tails(path) + {current} && current !in Tails(path) &&
    (if path == [] then current == start else path[0].0 == start && path[|path| - 1].1 == current)
  }

  /** Reaching next removes it from the nodes still unreached. */
  lemma RemoveReached(unreached: set<int>, reached: set<int>, left: set<int>, next: int)
    requires left == unreached - reached
    ensures left - {next} == unreached - (reached + {next})
  {
  }

  /** The tracer never reaches more than n nodes. */
  lemma WalkingCard(sol: Matrix, n: nat, start: int, path: Path, current: int, reached: set<int>)
    requires IsSquare(sol, n) && Walking(sol, n, start, path, current, reached)
    ensures |reached| <= n
  {
    assert forall r :: r in reached ==> 0 <= r < n;
    BoundedCard(reached, n);
  }

  /**
   * One step of the tracer: moving to the successor of current either closes
   * the path, when the successor was reached already, or goes on walking.
   */
  lemma WalkStep(sol: Matrix, n: nat, start: int, path: Path, current: int, reached: set<int>, next: int)
    requires IsSquare(sol, n) && Walking(sol, n, start, path, current, reached)
    requires next == Succ(sol, n, current) && 0 <= next < n
    ensures next in reached ==>
              IsTrace(sol, n, path + [(current, next)]) && (path + [(current, next)])[0].0 == start &&
              reached == Tails(path + [(current, next)])
    ensures next !in reached ==> Walking(sol, n, start, path + [(current, next)], next, reached + {next})
  {
    WalkSnoc(sol, n, path, current);
  }

  /**
   * The outer while loop: trace paths from the smallest unreached node until
   * every node has been reached.
   */
  method Decompose(sol: Matrix, n: nat) returns (paths: seq<Path>)
    requires IsSquare(sol, n) && HasOut(sol, n)
    ensures IsDecomposition(sol, n, paths)
    ensures |paths| <= n
  {
    var unreached := {};
    for i := 0 to n
      invariant unreached == Range(i)
    {
      unreached := unreached + {i};
    }
    RangeCard(n);
    paths := [];
    while |unreached| > 0
      invariant unreached == Range(n) - Covered(paths)
      invariant Covered(paths) <= Range(n)
      invariant AllWellPlaced(sol, n, paths)
      invariant |paths| + |unreached| <= n
      decreases |unreached|
    {
      var path, left := TracePath(sol, n, unreached);
      ExtendDecomposition(sol, n, paths, path, unreached, left);
      paths := paths + [path];
      unreached := left;
    }
  }

  /** Appending the path traced from the smallest unreached node keeps the outer loop's invariant. */
  lemma ExtendDecomposition(sol: Matrix, n: nat, paths: seq<Path>, path: Path, unreached: set<int>, left: set<int>)
    requires IsSquare(sol, n)
    requires unreached == Range(n) - Covered(paths) && Covered(paths) <= Range(n)
    requires AllWellPlaced(sol, n, paths)
    requires IsTrace(sol, n, path) && IsLeast(path[0].0, unreached) && left == unreached - Tails(path)
    ensures left == Range(n) - Covered(paths + [path]) && Covered(paths + [path]) <= Range(n)
    ensures AllWellPlaced(sol, n, paths + [path])
    ensures |left| < |unreached|
  {
    TraceTails(sol, n, path);
    ExtendCovered(n, paths, path, unreached, left);
    ExtendShrinks(path[0].0, Tails(path), unreached, left);
    ExtendWellPlaced(sol, n, paths, path);
  }

  lemma TraceTails(sol: Matrix, n: nat, path: Path)
    requires IsSquare(sol, n) && IsTrace(sol, n, path)
    ensures Tails(path) <= Range(n) && path[0].0 in Tails(path)
  {
    assert path[0] in path;
  }

  lemma ExtendCovered(n: nat, paths: seq<Path>, path: Path, unreached: set<int>, left: set<int>)
    requires unreached == Range(n) - Covered(paths) && Covered(paths) <= Range(n)
    requires Tails(path) <= Range(n) && left == unreached - Tails(path)
    ensures left == Range(n) - Covered(paths + [path]) && Covered(paths + [path]) <= Range(n)
  {
    CoveredSnoc(paths, path);
  }

  /** Removing a set that holds an unreached node shrinks the unreached set. */
  lemma ExtendShrinks(x: int, ts: set<int>, unreached: set<int>, left: set<int>)
    requires x in unreached && x in ts && left == unreached - ts
    ensures |left| < |unreached|
  {
    SubsetCard(left, unreached - {x});
  }

  lemma ExtendWellPlaced(sol: Matrix, n: nat, paths: seq<Path>, path: Path)
    requires IsSquare(sol, n)
    requires AllWellPlaced(sol, n, paths)
    requires IsTrace(sol, n, path) && IsLeast(path[0].0, Range(n) - Covered(paths))
    ensures AllWellPlaced(sol, n, paths + [path])
  {
    var ext := paths + [path];
    forall p | 0 <= p < |ext|
      ensures ext[p] != [] && WellPlaced(sol, n, ext, p)
    {
      if p < |paths| {
        assert AllWellPlaced(sol, n, paths);
        assert WellPlaced(sol, n, paths, p);
        WellPlacedSnoc(sol, n, paths, path, p);
      } else {
        assert ext[..|paths|] == paths;
      }
    }
    assert AllWellPlaced(sol, n, ext);
  }

  lemma WellPlacedSnoc(sol: Matrix, n: nat, paths: seq<Path>, path: Path, p: nat)
    requires IsSquare(sol, n) && p < |paths| && WellPlaced(sol, n, paths, p)
    ensures (paths + [path])[p] != [] && WellPlaced(sol, n, paths + [path], p)
  {
    assert (paths + [path])[..p] == paths[..p];
  }

  /** The model variable x[a.0][a.1] of an arc a. */
  function ArcVar(a: Arc): Var
  {
    X(a.0, a.1)
  }

  /** The arc variables of a path. */
  function ArcVars(path: Path): set<Var>
  {
    set a | a in path :: ArcVar(a)
  }

  /**
   * The subtour elimination cut of a path: coefficient 1 on each of its arcs,
   * range [0, |path| - 1].
   */
  function CutFor(path: Path): Constraint
  {
    Constraint(Unit(ArcVars(path)), 0.0, Some((|path| - 1) as real))
  }

  /** The cuts the callback adds when it found the paths. */
  function CutsFor(paths: seq<Path>): (cuts: seq<Constraint>)
    ensures |cuts| == |paths|
  {
    seq(|paths|, p requires 0 <= p < |paths| => CutFor(paths[p]))
  }

  lemma ArcVarsSnoc(path: Path, k: nat)
    requires k < |path|
    ensures ArcVars(path[..k + 1]) == ArcVars(path[..k]) + {X(path[k].0, path[k].1)}
  {
    assert path[..k + 1] == path[..k] + [path[k]];
    assert ArcVar(path[k]) == X(path[k].0, path[k].1);
  }

  /** The cut emission loop: nothing when at most one path, else one cut per path. */
  method EmitCuts(paths: seq<Path>) returns (cuts: seq<Constraint>)
    requires forall p :: 0 <= p < |paths| ==> paths[p] != []
    ensures cuts == if |paths| > 1 then CutsFor(paths) else []
  {
    cuts := [];
    if |paths| > 1 {
      for p := 0 to |paths|
        invariant |cuts| == p
        invariant forall q :: 0 <= q < p ==> cuts[q] == CutFor(paths[q])
      {
        var path := paths[p];
        var coefs: map<Var, real> := map[];
        for k := 0 to |path|
          invariant coefs == Unit(ArcVars(path[..k]))
        {
          ArcVarsSnoc(path, k);
          coefs := coefs[X(path[k].0, path[k].1) := 1.0];
        }
        assert path[..|path|] == path;
        cuts := cuts + [Constraint(coefs, 0.0, Some((|path| - 1) as real))];
      }
    }
  }

  /**
   * The whole callback: threshold, decompose, and emit the cuts. The matrix
   * and the paths it works on are returned next to the cuts.
   */
  method LazyCallback(vals: Values, n: nat) returns (cuts: seq<Constraint>, sol: Matrix, paths: seq<Path>)
    requires IsSquareValues(vals, n)
    requires forall i :: 0 <= i < n ==> AnyAbove(vals[i])
    ensures IsSquare(sol, n)
    ensures forall i, j :: 0 <= i < n && 0 <= j < n ==>
              (sol[i][j] <==> vals[i][j].Some? && vals[i][j].value > 0.5)
    ensures IsDecomposition(sol, n, paths) && |paths| <= n
    ensures cuts == if |paths| > 1 then CutsFor(paths) else []
  {
    sol := Threshold(vals, n);
    forall i | 0 <= i < n ensures AnyTrue(sol[i]) {
      assert AnyAbove(vals[i]);
      var j :| 0 <= j < n && vals[i][j].Some? && vals[i][j].value > 0.5;
      assert sol[i][j];
    }
    paths := Decompose(sol, n);
    StartsDistinct(sol, n, paths);
    cuts := EmitCuts(paths);
  }
}
