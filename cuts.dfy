/**
 * What the subtour elimination cuts of the callback achieve: each cut is
 * violated by the candidate it was generated from, and no cut excludes a
 * tour, so adding them never removes a feasible solution of the problem.
 */
module Cuts {
  import opened Sets
  import opened Lp
  import opened Cycles
  import opened Callback

  /** Distinct tails give distinct arc variables, one per arc. */
  lemma {:induction false} ArcVarsCard(path: Path)
    requires forall k, l :: 0 <= k < l < |path| ==> path[k].0 != path[l].0
    ensures |ArcVars(path)| == |path|
  {
    if path != [] {
      var init := path[..|path| - 1];
      ArcVarsCard(init);
      ArcVarsLast(path);
    } else {
      assert ArcVars(path) == {};
    }
  }

  lemma ArcVarsLast(path: Path)
    requires path != [] && forall k, l :: 0 <= k < l < |path| ==> path[k].0 != path[l].0
    ensures ArcVars(path) == ArcVars(path[..|path| - 1]) + {ArcVar(path[|path| - 1])}
    ensures ArcVar(path[|path| - 1]) !in ArcVars(path[..|path| - 1])
  {
    var init := path[..|path| - 1];
    assert path == init + [path[|path| - 1]];
    forall a | a in init ensures ArcVar(a) != ArcVar(path[|path| - 1]) {
      var k :| 0 <= k < |init| && init[k] == a;
    }
  }

  /** The arc variables of the path that x sets to 1. */
  ghost function SelectedArcs(path: Path, x: Var -> real): set<Var>
  {
    Ones(ArcVars(path), Weighted(CutFor(path).coefs, x))
  }

  /** At a 0/1 point of the arc variables, the left-hand side of a cut counts the path arcs set to 1. */
  lemma CutLhs(path: Path, t: Matrix)
    ensures Lhs(CutFor(path), Indicator(t)) == |SelectedArcs(path, Indicator(t))| as real
    ensures forall v :: v in SelectedArcs(path, Indicator(t)) <==>
              v in ArcVars(path) && v.X? && 0 <= v.tail < |t| && 0 <= v.head < |t[v.tail]| && t[v.tail][v.head]
  {
    var c := CutFor(path);
    var f := Weighted(c.coefs, Indicator(t));
    assert c.coefs.Keys == ArcVars(path);
    forall v | v in ArcVars(path) ensures f(v) == 0.0 || f(v) == 1.0 {
      assert c.coefs[v] == 1.0;
    }
    SumOfIndicator(ArcVars(path), f);
  }

  /**
   * The cut of a traced path is violated by the candidate it was traced in:
   * every arc of the path is selected, so the left-hand side is |path|,
   * above the bound |path| - 1.
   */
  lemma CutViolated(sol: Matrix, n: nat, path: Path)
    requires IsSquare(sol, n) && IsTrace(sol, n, path)
    ensures Lhs(CutFor(path), Indicator(sol)) == |path| as real
    ensures !Satisfied(CutFor(path), Indicator(sol))
  {
    CutLhs(path, sol);
    TraceSelected(sol, n, path);
    AllSelected(path, sol);
    ArcVarsCard(path);
  }

  lemma AllSelected(path: Path, t: Matrix)
    requires forall k :: 0 <= k < |path| ==>
               0 <= path[k].0 < |t| && 0 <= path[k].1 < |t[path[k].0]| && t[path[k].0][path[k].1]
    ensures SelectedArcs(path, Indicator(t)) == ArcVars(path)
  {
    CutLhs(path, t);
    forall v | v in ArcVars(path) ensures v in SelectedArcs(path, Indicator(t)) {
      var a :| a in path && v == X(a.0, a.1);
      var k :| 0 <= k < |path| && path[k] == a;
    }
  }

  /**
   * Every cut the callback emits is violated by the candidate: the callback
   * removes the current integral solution whenever it finds more than one
   * path.
   */
  lemma CutsViolated(sol: Matrix, n: nat, paths: seq<Path>)
    requires IsSquare(sol, n) && IsDecomposition(sol, n, paths)
    ensures forall p :: 0 <= p < |paths| ==> !Satisfied(CutsFor(paths)[p], Indicator(sol))
  {
    forall p | 0 <= p < |paths| ensures !Satisfied(CutsFor(paths)[p], Indicator(sol)) {
      DecompositionAt(sol, n, paths, p);
      CutViolated(sol, n, paths[p]);
    }
  }

  /** Traces depend on the matrix only through Succ. */
  lemma TraceTransfer(sol: Matrix, t: Matrix, n: nat, q: Path)
    requires IsSquare(sol, n) && IsSquare(t, n) && IsTrace(sol, n, q)
    requires forall v :: 0 <= v < n ==> Succ(sol, n, v) == Succ(t, n, v)
    ensures IsTrace(t, n, q)
  {
  }

  /**
   * A tour that selects every arc of a trace follows that trace: the trace
   * reaches every node and the candidate and the tour agree on Succ.
   */
  lemma TourContainingTrace(sol: Matrix, n: nat, path: Path, t: Matrix, cycle: Path)
    requires IsSquare(sol, n) && IsTrace(sol, n, path) && IsTour(t, n, cycle)
    requires forall k :: 0 <= k < |path| ==> 0 <= path[k].1 < n && t[path[k].0][path[k].1]
    ensures Tails(path) == Range(n)
    ensures forall v :: 0 <= v < n ==> Succ(sol, n, v) == Succ(t, n, v)
  {
    forall k | 0 <= k < |path| ensures path[k].1 == Succ(t, n, path[k].0) {
      PermutationSuccIs(t, n, path[k].0, path[k].1);
    }
    assert IsTrace(t, n, path);
    TraceSpans(t, n, path, cycle);
    forall v | 0 <= v < n ensures Succ(sol, n, v) == Succ(t, n, v) {
      assert v in Tails(path);
      var a :| a in path && a.0 == v;
      var k :| 0 <= k < |path| && path[k] == a;
    }
  }

  /**
   * When the callback finds more than one path, no tour selects every arc of
   * any of them.
   */
  lemma SomeArcMissing(sol: Matrix, n: nat, paths: seq<Path>, p: nat, t: Matrix, cycle: Path) returns (k: nat)
    requires IsSquare(sol, n) && IsDecomposition(sol, n, paths) && 1 < |paths| && p < |paths|
    requires IsTour(t, n, cycle)
    ensures k < |paths[p]| && 0 <= paths[p][k].0 < n && 0 <= paths[p][k].1 < n
    ensures !t[paths[p][k].0][paths[p][k].1]
  {
    var path := paths[p];
    DecompositionAt(sol, n, paths, p);
    TraceSelected(sol, n, path);
    if forall j :: 0 <= j < |path| ==> t[path[j].0][path[j].1] {
      TourContainingTrace(sol, n, path, t, cycle);
      DecompositionAt(sol, n, paths, 0);
      TraceTransfer(sol, t, n, paths[0]);
      TraceSpans(t, n, paths[0], cycle);
      CoveredPrefix(paths, 0, 1);
      DecompositionAt(sol, n, paths, 1);
      assert false;
    }
    k :| 0 <= k < |path| && !t[path[k].0][path[k].1];
  }

  /**
   * The cuts are valid: when the callback emits them, every tour satisfies
   * every one of them.
   */
  lemma CutsValid(sol: Matrix, n: nat, paths: seq<Path>, t: Matrix, cycle: Path)
    requires IsSquare(sol, n) && IsDecomposition(sol, n, paths) && 1 < |paths|
    requires IsTour(t, n, cycle)
    ensures forall p :: 0 <= p < |paths| ==> Satisfied(CutsFor(paths)[p], Indicator(t))
  {
    forall p | 0 <= p < |paths| ensures Satisfied(CutsFor(paths)[p], Indicator(t)) {
      CutSatisfied(sol, n, paths, p, t, cycle);
    }
  }

  lemma CutSatisfied(sol: Matrix, n: nat, paths: seq<Path>, p: nat, t: Matrix, cycle: Path)
    requires IsSquare(sol, n) && IsDecomposition(sol, n, paths) && 1 < |paths| && p < |paths|
    requires IsTour(t, n, cycle)
    ensures Satisfied(CutFor(paths[p]), Indicator(t))
  {
    var k := SomeArcMissing(sol, n, paths, p, t, cycle);
    DecompositionAt(sol, n, paths, p);
    MissingArcSatisfies(paths[p], t, k);
  }

  /** A 0/1 point that leaves out some arc of a path with distinct tails satisfies the path's cut. */
  lemma MissingArcSatisfies(path: Path, t: Matrix, k: nat)
    requires forall k, l :: 0 <= k < l < |path| ==> path[k].0 != path[l].0
    requires k < |path| && 0 <= path[k].0 < |t| && 0 <= path[k].1 < |t[path[k].0]| && !t[path[k].0][path[k].1]
    ensures Satisfied(CutFor(path), Indicator(t))
  {
    CutLhs(path, t);
    var sel := SelectedArcs(path, Indicator(t));
    assert path[k] in path;
    assert ArcVar(path[k]) in ArcVars(path) - sel;
    SubsetCard(sel, ArcVars(path) - {ArcVar(path[k])});
    ArcVarsCard(path);
  }

  /**
   * A 0/1 point satisfies the cut of a path with distinct tails exactly when
   * it leaves out at least one arc of the path.
   */
  lemma CutMeaning(path: Path, t: Matrix)
    requires forall k, l :: 0 <= k < l < |path| ==> path[k].0 != path[l].0
    requires forall k :: 0 <= k < |path| ==> 0 <= path[k].0 < |t| && 0 <= path[k].1 < |t[path[k].0]|
    ensures Satisfied(CutFor(path), Indicator(t)) <==> exists k :: 0 <= k < |path| && !t[path[k].0][path[k].1]
  {
    if k :| 0 <= k < |path| && !t[path[k].0][path[k].1] {
      MissingArcSatisfies(path, t, k);
    } else {
      CutLhs(path, t);
      AllSelected(path, t);
      ArcVarsCard(path);
    }
  }

  /** Four nodes with the arcs 0 -> 1, 1 -> 0, 2 -> 3 and 3 -> 2 selected. */
  function TwoPairs(): Matrix
  {
    [[false, true, false, false], [true, false, false, false],
     [false, false, false, true], [false, false, true, false]]
  }

  /** Two nodes that are each other's successor form a trace of two arcs. */
  lemma PairTrace(sol: Matrix, n: nat, a: int, b: int)
    requires IsSquare(sol, n) && 0 <= a < n && 0 <= b < n && a != b
    requires Succ(sol, n, a) == b && Succ(sol, n, b) == a
    ensures IsTrace(sol, n, [(a, b), (b, a)]) && Tails([(a, b), (b, a)]) == {a, b}
  {
    TailsSnoc([(a, b)], (b, a));
    TailsSnoc([], (a, b));
    assert [(a, b)] + [(b, a)] == [(a, b), (b, a)];
  }

  lemma TwoPairsTraces()
    ensures IsSquare(TwoPairs(), 4)
    ensures IsTrace(TwoPairs(), 4, [(0, 1), (1, 0)]) && Tails([(0, 1), (1, 0)]) == {0, 1}
    ensures IsTrace(TwoPairs(), 4, [(2, 3), (3, 2)]) && Tails([(2, 3), (3, 2)]) == {2, 3}
  {
    var sol := TwoPairs();
    SuccIs(sol, 4, 0, 1);
    SuccIs(sol, 4, 1, 0);
    SuccIs(sol, 4, 2, 3);
    SuccIs(sol, 4, 3, 2);
    PairTrace(sol, 4, 0, 1);
    PairTrace(sol, 4, 2, 3);
  }

  lemma ArcVarsPair(a: Arc, b: Arc)
    ensures ArcVars([a, b]) == {ArcVar(a), ArcVar(b)}
  {
    assert [a, b][0] == a && [a, b][1] == b;
  }

  lemma TwoPairsDecomposition()
    ensures IsSquare(TwoPairs(), 4)
    ensures IsDecomposition(TwoPairs(), 4, [[(0, 1), (1, 0)], [(2, 3), (3, 2)]])
  {
    var sol := TwoPairs();
    var p0 := [(0, 1), (1, 0)];
    var p1 := [(2, 3), (3, 2)];
    var found := [p0, p1];
    TwoPairsTraces();
    assert found[..0] == [] && found[..1] == [p0];
    CoveredSingle(p0);
    CoveredSnoc([p0], p1);
    assert [p0] + [p1] == found;
    assert Covered(found) == Range(4);
    assert WellPlaced(sol, 4, found, 0) by {
      assert IsLeast(0, Range(4) - Covered(found[..0]));
    }
    assert WellPlaced(sol, 4, found, 1) by {
      assert Range(4) - Covered(found[..1]) == {2, 3};
    }
    assert AllWellPlaced(sol, 4, found);
  }

  /**
   * On TwoPairs the callback finds two paths and emits x01 + x10 <= 1 and
   * x23 + x32 <= 1.
   */
  lemma TwoSubtours(paths: seq<Path>)
    requires IsSquare(TwoPairs(), 4) && IsDecomposition(TwoPairs(), 4, paths)
    ensures CutsFor(paths) == [Constraint(map[X(0, 1) := 1.0, X(1, 0) := 1.0], 0.0, Some(1.0)),
                               Constraint(map[X(2, 3) := 1.0, X(3, 2) := 1.0], 0.0, Some(1.0))]
  {
    TwoPairsDecomposition();
    DecompositionUnique(TwoPairs(), 4, paths, [[(0, 1), (1, 0)], [(2, 3), (3, 2)]]);
    var p0, p1 := [(0, 1), (1, 0)], [(2, 3), (3, 2)];
    assert CutFor(p0) == Constraint(map[X(0, 1) := 1.0, X(1, 0) := 1.0], 0.0, Some(1.0)) by {
      ArcVarsPair((0, 1), (1, 0));
      assert Unit({X(0, 1), X(1, 0)}) == map[X(0, 1) := 1.0, X(1, 0) := 1.0];
    }
    assert CutFor(p1) == Constraint(map[X(2, 3) := 1.0, X(3, 2) := 1.0], 0.0, Some(1.0)) by {
      ArcVarsPair((2, 3), (3, 2));
      assert Unit({X(2, 3), X(3, 2)}) == map[X(2, 3) := 1.0, X(3, 2) := 1.0];
    }
    assert paths == [p0, p1];
    assert CutsFor(paths)[0] == CutFor(p0) && CutsFor(paths)[1] == CutFor(p1);
  }
}
