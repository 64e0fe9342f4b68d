/**
 * The mixed-integer formulation that TSP::solve_ip hands to the solver, as
 * data: the flat index of each arc, the scenario rows z >= cost of the
 * tour, the in- and out-degree rows, and the copy of the arc values into the
 * flat solution vector.
 */
module Formulation {
  import opened Sets
  import opened Lp
  import opened Cycles

  // ---------------------------------------------------------------------------
  // The index map dmap

  /** The position of arc (i, j) in a flat vector of nr * nr entries. */
  function FlatIndex(nr: nat, i: int, j: int): int
  {
    i * nr + j
  }

  /** dmap[i][j] is the flat index of arc (i, j) for every pair of nodes. */
  predicate IsIndexMap(dmap: seq<seq<int>>, nr: nat)
  {
    |dmap| == nr &&
    (forall i :: 0 <= i < nr ==> |dmap[i]| == nr) &&
    (forall i, j :: 0 <= i < nr && 0 <= j < nr ==> dmap[i][j] == FlatIndex(nr, i, j))
  }

  /** a * m grows with a when m is not negative. */
  lemma MulMonotone(a: int, b: int, m: nat)
    ensures a <= b ==> a * m <= b * m
  {
    if a < b {
      MulGrows(b - a, m);
      assert b * m == a * m + (b - a) * m;
    }
  }

  lemma {:induction false} MulGrows(d: int, m: nat)
    requires d >= 1
    ensures d * m >= m
    decreases d
  {
    if d > 1 {
      MulGrows(d - 1, m);
      assert d * m == (d - 1) * m + m;
    }
  }

  /** The quotient and remainder of t by m are the only q, r with t == q * m + r and 0 <= r < m. */
  lemma DivModUnique(t: int, m: nat, q: int, r: int)
    requires 0 <= r < m && t == q * m + r
    ensures t / m == q && t % m == r
  {
    var q0 := t / m;
    var r0 := t % m;
    assert t == q0 * m + r0;
    MulMonotone(q0 + 1, q, m);
    MulMonotone(q + 1, q0, m);
    assert (q0 + 1) * m == q0 * m + m;
    assert (q + 1) * m == q * m + m;
  }

  /** The flat index of a pair of nodes lies in [0, nr * nr) and gives the pair back by / and %. */
  lemma FlatIndexDecode(nr: nat, i: int, j: int)
    requires 0 <= i < nr && 0 <= j < nr
    ensures 0 <= FlatIndex(nr, i, j) < nr * nr
    ensures FlatIndex(nr, i, j) / nr == i && FlatIndex(nr, i, j) % nr == j
  {
    MulMonotone(0, i, nr);
    MulMonotone(i + 1, nr, nr);
    assert (i + 1) * nr == i * nr + nr;
    DivModUnique(FlatIndex(nr, i, j), nr, i, j);
  }

  /** Every flat index in [0, nr * nr) is the index of the pair (t / nr, t % nr). */
  lemma FlatIndexEncode(nr: nat, t: int)
    requires 0 <= t < nr * nr
    ensures 0 <= t / nr < nr && 0 <= t % nr < nr
    ensures FlatIndex(nr, t / nr, t % nr) == t
  {
    var q := t / nr;
    assert t == q * nr + t % nr;
    MulMonotone(nr, q, nr);
    MulMonotone(q, -1, nr);
  }

  /** Distinct pairs of nodes have distinct flat indices. */
  lemma FlatIndexInjective(nr: nat, i: int, j: int, i': int, j': int)
    requires 0 <= i < nr && 0 <= j < nr && 0 <= i' < nr && 0 <= j' < nr
    requires FlatIndex(nr, i, j) == FlatIndex(nr, i', j')
    ensures i == i' && j == j'
  {
    FlatIndexDecode(nr, i, j);
    FlatIndexDecode(nr, i', j');
  }

  /** The loop nest that fills dmap (dmap[i] resized to nr, then dmap[i][j] = i*nr + j). */
  method IndexMap(nr: nat) returns (dmap: seq<seq<int>>)
    ensures IsIndexMap(dmap, nr)
    ensures forall i, j :: 0 <= i < nr && 0 <= j < nr ==> 0 <= dmap[i][j] < nr * nr
  {
    dmap := [];
    for i := 0 to nr
      invariant |dmap| == i
      invariant forall a :: 0 <= a < i ==> |dmap[a]| == nr
      invariant forall a, b :: 0 <= a < i && 0 <= b < nr ==> dmap[a][b] == FlatIndex(nr, a, b)
    {
      var row := seq(nr, _ => 0);
      for j := 0 to nr
        invariant |row| == nr
        invariant forall b :: 0 <= b < j ==> row[b] == FlatIndex(nr, i, b)
      {
        row := row[j := i * nr + j];
      }
      dmap := dmap + [row];
    }
    forall i, j | 0 <= i < nr && 0 <= j < nr ensures 0 <= dmap[i][j] < nr * nr {
      FlatIndexDecode(nr, i, j);
    }
  }

  // ---------------------------------------------------------------------------
  // Rows of the formulation

  /** The arc variables x[i][0], ..., x[i][j-1]. */
  function RowArcs(i: int, j: int): (r: set<Var>)
    ensures forall v :: v in r <==> v.X? && v.tail == i && 0 <= v.head < j
    decreases j
  {
    if j <= 0 then {} else RowArcs(i, j - 1) + {X(i, j - 1)}
  }

  /** The arc variables x[a][b] with a < i and b < nr. */
  function GridArcs(nr: nat, i: int): (r: set<Var>)
    ensures forall v :: v in r <==> v.X? && 0 <= v.tail < i && 0 <= v.head < nr
    decreases i
  {
    if i <= 0 then {} else GridArcs(nr, i - 1) + RowArcs(i - 1, nr)
  }

  /** The arc variables x[i][j] of all pairs of nodes, the diagonal included. */
  function ArcSet(nr: nat): set<Var>
  {
    GridArcs(nr, nr)
  }

  /** The expression sum over (i, j) of c[dmap[i][j]] * x[i][j] of one scenario's cost vector c. */
  function CostExpr(c: seq<real>, nr: nat): (e: map<Var, real>)
    requires nr * nr <= |c|
    ensures e.Keys == ArcSet(nr)
  {
    CostOn(c, nr, ArcSet(nr))
  }

  /** The part of the cost expression over the arc variables s. */
  function CostOn(c: seq<real>, nr: nat, s: set<Var>): (e: map<Var, real>)
    requires nr * nr <= |c| && s <= ArcSet(nr)
    ensures e.Keys == s
  {
    map v | v in s :: FlatIndexDecode(nr, v.tail, v.head); c[FlatIndex(nr, v.tail, v.head)]
  }

  /** Adding the term of one more arc extends the part of the cost expression by that arc. */
  lemma CostOnAdd(c: seq<real>, nr: nat, s: set<Var>, i: int, j: int)
    requires nr * nr <= |c| && s <= ArcSet(nr)
    requires 0 <= i < nr && 0 <= j < nr && X(i, j) !in s
    ensures 0 <= FlatIndex(nr, i, j) < |c|
    ensures AddTerm(CostOn(c, nr, s), X(i, j), c[FlatIndex(nr, i, j)]) == CostOn(c, nr, s + {X(i, j)})
  {
    FlatIndexDecode(nr, i, j);
  }

  /** The row cpz >= e, written as the range 0 <= z - e < +infinity. */
  function AtLeast(e: map<Var, real>): (c: Constraint)
    requires Z !in e
    ensures c.coefs.Keys == e.Keys + {Z} && c.lo == 0.0 && c.hi == None
  {
    Constraint(map v | v in e.Keys + {Z} :: if v == Z then 1.0 else -e[v], 0.0, None)
  }

  /** The scenario row of cost vector c. */
  function ScenarioRow(c: seq<real>, nr: nat): Constraint
    requires nr * nr <= |c|
  {
    AtLeast(CostExpr(c, nr))
  }

  /** The arcs into node i from the other nodes. */
  function InArcs(nr: nat, i: int): set<Var>
  {
    set j | 0 <= j < nr && j != i :: X(j, i)
  }

  /** The arcs out of node i to the other nodes. */
  function OutArcs(nr: nat, i: int): set<Var>
  {
    set j | 0 <= j < nr && j != i :: X(i, j)
  }

  /** The in-degree row of node i: coefficient 1 on x[j][i] for j != i, range [1, 1]. */
  function InRow(nr: nat, i: int): Constraint
  {
    Constraint(Unit(InArcs(nr, i)), 1.0, Some(1.0))
  }

  /** The out-degree row of node i: coefficient 1 on x[i][j] for j != i, range [1, 1]. */
  function OutRow(nr: nat, i: int): Constraint
  {
    Constraint(Unit(OutArcs(nr, i)), 1.0, Some(1.0))
  }

  /** The rows added to the model, in the order solve_ip adds them. */
  function ModelRows(c: seq<seq<real>>, nr: nat): (rows: seq<Constraint>)
    requires forall k :: 0 <= k < |c| ==> nr * nr <= |c[k]|
    ensures |rows| == |c| + 2 * nr
  {
    seq(|c|, k requires 0 <= k < |c| => ScenarioRow(c[k], nr)) +
    seq(nr, i => InRow(nr, i)) +
    seq(nr, i => OutRow(nr, i))
  }

  /** con += a * x[v] on a linear expression. */
  function AddTerm(e: map<Var, real>, v: Var, a: real): (r: map<Var, real>)
    ensures r.Keys == e.Keys + {v}
    ensures r[v] == (if v in e then e[v] else 0.0) + a
    ensures forall u :: u in e && u != v ==> r[u] == e[u]
  {
    e[v := (if v in e then e[v] else 0.0) + a]
  }

  /** The loop nest that builds the expression con of one scenario. */
  method BuildCostExpr(c: seq<real>, nr: nat, dmap: seq<seq<int>>) returns (con: map<Var, real>)
    requires IsIndexMap(dmap, nr) && nr * nr <= |c|
    ensures con == CostExpr(c, nr)
  {
    con := map[];
    for i := 0 to nr
      invariant con == CostOn(c, nr, GridArcs(nr, i))
    {
      con := AddRowTerms(c, nr, dmap, i, con);
    }
  }

  /** The inner loop of BuildCostExpr: the terms of the arcs leaving node i. */
  method AddRowTerms(c: seq<real>, nr: nat, dmap: seq<seq<int>>, i: int, con0: map<Var, real>) returns (con: map<Var, real>)
    requires IsIndexMap(dmap, nr) && nr * nr <= |c| && 0 <= i < nr
    requires con0 == CostOn(c, nr, GridArcs(nr, i))
    ensures con == CostOn(c, nr, GridArcs(nr, i + 1))
  {
    con := con0;
    ghost var done := GridArcs(nr, i);
    for j := 0 to nr
      invariant done == GridArcs(nr, i) + RowArcs(i, j) && done <= ArcSet(nr)
      invariant con == CostOn(c, nr, done)
    {
      GridStep(nr, i, j);
      CostOnAdd(c, nr, done, i, j);
      assert dmap[i][j] == FlatIndex(nr, i, j);
      con := AddTerm(con, X(i, j), c[dmap[i][j]]);
      done := done + {X(i, j)};
    }
  }

  /** Arc (i, j) is the next one the loop nest of BuildCostExpr adds. */
  lemma GridStep(nr: nat, i: int, j: int)
    requires 0 <= i < nr && 0 <= j < nr
    ensures GridArcs(nr, i) + RowArcs(i, j) <= ArcSet(nr) && X(i, j) !in GridArcs(nr, i) + RowArcs(i, j)
    ensures GridArcs(nr, i) + RowArcs(i, j) + {X(i, j)} == GridArcs(nr, i) + RowArcs(i, j + 1)
    ensures GridArcs(nr, i) + RowArcs(i, j + 1) <= ArcSet(nr)
  {
  }

  /** The in-degree loop for node i: setLinearCoef(x[j][i], 1) for every j != i. */
  method BuildInRow(nr: nat, i: int) returns (con: Constraint)
    ensures con == InRow(nr, i)
  {
    var coefs: map<Var, real> := map[];
    for j := 0 to nr
      invariant coefs == Unit(set b | 0 <= b < j && b != i :: X(b, i))
    {
      if i != j {
        coefs := coefs[X(j, i) := 1.0];
        assert (set b | 0 <= b < j + 1 && b != i :: X(b, i)) == (set b | 0 <= b < j && b != i :: X(b, i)) + {X(j, i)};
      } else {
        assert (set b | 0 <= b < j + 1 && b != i :: X(b, i)) == (set b | 0 <= b < j && b != i :: X(b, i));
      }
    }
    con := Constraint(coefs, 1.0, Some(1.0));
  }

  /** The out-degree loop for node i: setLinearCoef(x[i][j], 1) for every j != i. */
  method BuildOutRow(nr: nat, i: int) returns (con: Constraint)
    ensures con == OutRow(nr, i)
  {
    var coefs: map<Var, real> := map[];
    for j := 0 to nr
      invariant coefs == Unit(set b | 0 <= b < j && b != i :: X(i, b))
    {
      if i != j {
        coefs := coefs[X(i, j) := 1.0];
        assert (set b | 0 <= b < j + 1 && b != i :: X(i, b)) == (set b | 0 <= b < j && b != i :: X(i, b)) + {X(i, j)};
      } else {
        assert (set b | 0 <= b < j + 1 && b != i :: X(i, b)) == (set b | 0 <= b < j && b != i :: X(i, b));
      }
    }
    con := Constraint(coefs, 1.0, Some(1.0));
  }

  /**
   * The model building part of solve_ip: one scenario row per cost vector,
   * then the in-degree rows, then the out-degree rows, each appended to the
   * model as model.add does.
   */
  method BuildModel(c: seq<seq<real>>, nr: nat, dmap: seq<seq<int>>) returns (model: seq<Constraint>)
    requires IsIndexMap(dmap, nr)
    requires forall k :: 0 <= k < |c| ==> nr * nr <= |c[k]|
    ensures model == ModelRows(c, nr)
  {
    model := [];
    for k := 0 to |c|
      invariant model == seq(k, q requires 0 <= q < k => ScenarioRow(c[q], nr))
    {
      var con := BuildCostExpr(c[k], nr, dmap);
      model := model + [AtLeast(con)];
    }
    ghost var scenarios := model;
    for i := 0 to nr
      invariant model == scenarios + seq(i, q => InRow(nr, q))
    {
      var con := BuildInRow(nr, i);
      model := model + [con];
    }
    ghost var inRows := model;
    for i := 0 to nr
      invariant model == inRows + seq(i, q => OutRow(nr, q))
    {
      var con := BuildOutRow(nr, i);
      model := model + [con];
    }
  }

  // ---------------------------------------------------------------------------
  // What the rows say

  /** The expression of each scenario row holds c[dmap[i][j]] on arc (i, j), the diagonal included. */
  lemma CostExprAt(c: seq<real>, nr: nat, i: int, j: int)
    requires nr * nr <= |c| && 0 <= i < nr && 0 <= j < nr
    ensures 0 <= FlatIndex(nr, i, j) < |c|
    ensures X(i, j) in CostExpr(c, nr) && CostExpr(c, nr)[X(i, j)] == c[FlatIndex(nr, i, j)]
    ensures Z !in CostExpr(c, nr)
  {
    FlatIndexDecode(nr, i, j);
  }

  /** The left-hand side of AtLeast(e) is z minus the value of e. */
  lemma AtLeastValue(e: map<Var, real>, x: Var -> real)
    requires Z !in e
    ensures Lhs(AtLeast(e), x) == x(Z) - Value(e, x)
  {
    var m := AtLeast(e).coefs;
    var f := Weighted(m, x);
    var g := Weighted(e, x);
    SumRemove(m.Keys, f, Z);
    assert m.Keys - {Z} == e.Keys;
    forall v | v in e.Keys ensures f(v) == -g(v) {
      AtLeastCoef(e, v);
      WeightedNegated(m, e, x, v);
    }
    SumNegate(e.Keys, g, f);
    assert f(Z) == x(Z) by {
      assert m[Z] == 1.0;
    }
  }

  lemma AtLeastCoef(e: map<Var, real>, v: Var)
    requires Z !in e && v in e
    ensures v in AtLeast(e).coefs && AtLeast(e).coefs[v] == -e[v]
  {
  }

  lemma WeightedNegated(m: map<Var, real>, e: map<Var, real>, x: Var -> real, v: Var)
    requires v in m && v in e && m[v] == -e[v]
    ensures Weighted(m, x)(v) == -Weighted(e, x)(v)
  {
  }

  /** The row AtLeast(e) holds at x exactly when z is at least the value of e at x. */
  lemma AtLeastMeaning(e: map<Var, real>, x: Var -> real)
    requires Z !in e
    ensures Satisfied(AtLeast(e), x) <==> x(Z) >= Value(e, x)
  {
    AtLeastValue(e, x);
  }

  /** The scenario row of cost vector c holds at x exactly when z is at least the scenario cost of x. */
  lemma ScenarioMeaning(c: seq<real>, nr: nat, x: Var -> real)
    requires nr * nr <= |c|
    ensures Satisfied(ScenarioRow(c, nr), x) <==> x(Z) >= Value(CostExpr(c, nr), x)
  {
    AtLeastMeaning(CostExpr(c, nr), x);
  }

  /** Node i has exactly one selected arc in from another node. */
  predicate OneInto(sol: Matrix, nr: nat, i: int)
    requires IsSquare(sol, nr) && 0 <= i < nr
  {
    exists j :: 0 <= j < nr && j != i && sol[j][i] &&
      forall j' :: 0 <= j' < nr && j' != i && sol[j'][i] ==> j' == j
  }

  /** Node i has exactly one selected arc out to another node. */
  predicate OneOutOf(sol: Matrix, nr: nat, i: int)
    requires IsSquare(sol, nr) && 0 <= i < nr
  {
    exists j :: 0 <= j < nr && j != i && sol[i][j] &&
      forall j' :: 0 <= j' < nr && j' != i && sol[i][j'] ==> j' == j
  }

  /** A row with coefficient 1 on each variable of s and range [1, 1] holds at a 0/1 point when exactly one of them is 1. */
  lemma UnitRowMeaning(s: set<Var>, sol: Matrix)
    ensures Satisfied(Constraint(Unit(s), 1.0, Some(1.0)), Indicator(sol)) <==> |Chosen(s, sol)| == 1
  {
    var f := Weighted(Unit(s), Indicator(sol));
    forall v | v in s ensures f(v) == 0.0 || f(v) == 1.0 {
    }
    SumOfIndicator(s, f);
  }

  /** The arcs of s that the 0/1 point of sol selects, as the degree rows count them. */
  ghost function Chosen(s: set<Var>, sol: Matrix): set<Var>
  {
    Ones(s, Weighted(Unit(s), Indicator(sol)))
  }

  lemma InChosen(sol: Matrix, nr: nat, i: int)
    requires IsSquare(sol, nr) && 0 <= i < nr
    ensures forall j :: 0 <= j < nr && j != i ==> (X(j, i) in Chosen(InArcs(nr, i), sol) <==> sol[j][i])
    ensures forall v :: v in Chosen(InArcs(nr, i), sol) ==> v.X? && v.head == i && 0 <= v.tail < nr && v.tail != i
  {
  }

  lemma OutChosen(sol: Matrix, nr: nat, i: int)
    requires IsSquare(sol, nr) && 0 <= i < nr
    ensures forall j :: 0 <= j < nr && j != i ==> (X(i, j) in Chosen(OutArcs(nr, i), sol) <==> sol[i][j])
    ensures forall v :: v in Chosen(OutArcs(nr, i), sol) ==> v.X? && v.tail == i && 0 <= v.head < nr && v.head != i
  {
  }

  /** The in-degree row of node i holds at a 0/1 point exactly when one other node has a selected arc into i. */
  lemma InRowMeaning(sol: Matrix, nr: nat, i: int)
    requires IsSquare(sol, nr) && 0 <= i < nr
    ensures Satisfied(InRow(nr, i), Indicator(sol)) <==> OneInto(sol, nr, i)
  {
    UnitRowMeaning(InArcs(nr, i), sol);
    InChosen(sol, nr, i);
    InChosenOne(Chosen(InArcs(nr, i), sol), sol, nr, i);
  }

  lemma InChosenOne(ones: set<Var>, sol: Matrix, nr: nat, i: int)
    requires IsSquare(sol, nr) && 0 <= i < nr
    requires forall j :: 0 <= j < nr && j != i ==> (X(j, i) in ones <==> sol[j][i])
    requires forall v :: v in ones ==> v.X? && v.head == i && 0 <= v.tail < nr && v.tail != i
    ensures |ones| == 1 <==> OneInto(sol, nr, i)
  {
    if |ones| == 1 {
      CardOne(ones);
      var w :| ones == {w};
      assert w in ones;
      assert sol[w.tail][i];
    }
    if OneInto(sol, nr, i) {
      var j :| 0 <= j < nr && j != i && sol[j][i] &&
        forall j' :: 0 <= j' < nr && j' != i && sol[j'][i] ==> j' == j;
      assert ones == {X(j, i)};
    }
  }

  /** The out-degree row of node i holds at a 0/1 point exactly when i has one selected arc to another node. */
  lemma OutRowMeaning(sol: Matrix, nr: nat, i: int)
    requires IsSquare(sol, nr) && 0 <= i < nr
    ensures Satisfied(OutRow(nr, i), Indicator(sol)) <==> OneOutOf(sol, nr, i)
  {
    UnitRowMeaning(OutArcs(nr, i), sol);
    OutChosen(sol, nr, i);
    OutChosenOne(Chosen(OutArcs(nr, i), sol), sol, nr, i);
  }

  lemma OutChosenOne(ones: set<Var>, sol: Matrix, nr: nat, i: int)
    requires IsSquare(sol, nr) && 0 <= i < nr
    requires forall j :: 0 <= j < nr && j != i ==> (X(i, j) in ones <==> sol[i][j])
    requires forall v :: v in ones ==> v.X? && v.tail == i && 0 <= v.head < nr && v.head != i
    ensures |ones| == 1 <==> OneOutOf(sol, nr, i)
  {
    if |ones| == 1 {
      CardOne(ones);
      var w :| ones == {w};
      assert w in ones;
      assert sol[i][w.head];
    }
    if OneOutOf(sol, nr, i) {
      var j :| 0 <= j < nr && j != i && sol[i][j] &&
        forall j' :: 0 <= j' < nr && j' != i && sol[i][j'] ==> j' == j;
      assert ones == {X(i, j)};
    }
  }

  /** No diagonal arc has a coefficient in a degree row, yet every scenario row prices it. */
  lemma DiagonalOnlyPriced(c: seq<real>, nr: nat, i: int, k: int)
    requires nr * nr <= |c| && 0 <= i < nr
    ensures X(i, i) !in InRow(nr, k).coefs && X(i, i) !in OutRow(nr, k).coefs
    ensures X(i, i) in ScenarioRow(c, nr).coefs
  {
    CostExprAt(c, nr, i, i);
  }

  /**
   * On a 0/1 point with no diagonal arc selected, the degree rows hold
   * exactly when the selected arcs form a permutation matrix.
   */
  lemma DegreeRowsPermutation(sol: Matrix, nr: nat)
    requires IsSquare(sol, nr) && forall i :: 0 <= i < nr ==> !sol[i][i]
    ensures (forall i :: 0 <= i < nr ==> Satisfied(InRow(nr, i), Indicator(sol)) && Satisfied(OutRow(nr, i), Indicator(sol)))
            <==> IsPermutation(sol, nr)
  {
    forall i | 0 <= i < nr
      ensures (Satisfied(InRow(nr, i), Indicator(sol)) <==> OneInColumn(sol, nr, i))
      ensures (Satisfied(OutRow(nr, i), Indicator(sol)) <==> OneInRow(sol, nr, i))
    {
      InRowMeaning(sol, nr, i);
      OutRowMeaning(sol, nr, i);
      OffDiagonalOne(sol, nr, i);
    }
  }

  /** Without diagonal arcs, one arc in (out) from (to) another node is one arc in the column (row). */
  lemma OffDiagonalOne(sol: Matrix, nr: nat, i: int)
    requires IsSquare(sol, nr) && 0 <= i < nr && !sol[i][i]
    ensures OneInto(sol, nr, i) <==> OneInColumn(sol, nr, i)
    ensures OneOutOf(sol, nr, i) <==> OneInRow(sol, nr, i)
  {
    if OneInColumn(sol, nr, i) {
      var j :| 0 <= j < nr && sol[j][i] && forall j' :: 0 <= j' < nr && sol[j'][i] ==> j' == j;
      assert j != i;
    }
    if OneInRow(sol, nr, i) {
      var j :| 0 <= j < nr && sol[i][j] && forall j' :: 0 <= j' < nr && sol[i][j'] ==> j' == j;
      assert j != i;
    }
  }

  /**
   * The degree rows leave the diagonal free: on two nodes, selecting x[0][0]
   * next to the tour 0 -> 1 -> 0 satisfies every degree row, although the
   * selection is not a permutation matrix.
   */
  lemma DiagonalSlack()
    ensures var sol := [[true, true], [true, false]];
      IsSquare(sol, 2) && !IsPermutation(sol, 2) &&
      forall i :: 0 <= i < 2 ==> Satisfied(InRow(2, i), Indicator(sol)) && Satisfied(OutRow(2, i), Indicator(sol))
  {
    var sol := [[true, true], [true, false]];
    forall i | 0 <= i < 2 ensures Satisfied(InRow(2, i), Indicator(sol)) && Satisfied(OutRow(2, i), Indicator(sol)) {
      InRowMeaning(sol, 2, i);
      OutRowMeaning(sol, 2, i);
      if i == 0 {
        assert sol[1][0] && sol[0][1];
      } else {
        assert sol[0][1] && sol[1][0];
      }
    }
    assert !OneInRow(sol, 2, 0) by {
      forall j | 0 <= j < 2 && sol[0][j] ensures exists j' :: 0 <= j' < 2 && sol[0][j'] && j' != j {
        assert sol[0][1 - j];
      }
    }
  }

  /** The out-degree rows give every node a selected outgoing arc, which the callback's tracer needs. */
  lemma OutRowsHaveOut(sol: Matrix, nr: nat)
    requires IsSquare(sol, nr)
    requires forall i :: 0 <= i < nr ==> Satisfied(OutRow(nr, i), Indicator(sol))
    ensures HasOut(sol, nr)
  {
    forall i | 0 <= i < nr ensures AnyTrue(sol[i]) {
      OutRowMeaning(sol, nr, i);
      var j :| 0 <= j < nr && j != i && sol[i][j] &&
        forall j' :: 0 <= j' < nr && j' != i && sol[i][j'] ==> j' == j;
    }
  }

  // ---------------------------------------------------------------------------
  // What the degree rows admit: selected diagonal arcs

  /** Every in- and out-degree row holds at the 0/1 point of sol. */
  ghost predicate DegreeRowsHold(sol: Matrix, nr: nat)
    requires IsSquare(sol, nr)
  {
    forall i :: 0 <= i < nr ==> Satisfied(InRow(nr, i), Indicator(sol)) && Satisfied(OutRow(nr, i), Indicator(sol))
  }

  /** sol with its diagonal cleared: only the arcs between distinct nodes. */
  function OffDiagonal(sol: Matrix, nr: nat): (t: Matrix)
    requires IsSquare(sol, nr)
    ensures IsSquare(t, nr)
    ensures forall i, j :: 0 <= i < nr && 0 <= j < nr ==> (t[i][j] <==> sol[i][j] && i != j)
  {
    seq(nr, i requires 0 <= i < nr => seq(nr, j requires 0 <= j < nr => sol[i][j] && i != j))
  }

  /** The degree rows look only at arcs between distinct nodes, so clearing the diagonal keeps them. */
  lemma OffDiagonalSame(sol: Matrix, nr: nat, i: int)
    requires IsSquare(sol, nr) && 0 <= i < nr
    ensures OneInto(OffDiagonal(sol, nr), nr, i) <==> OneInto(sol, nr, i)
    ensures OneOutOf(OffDiagonal(sol, nr), nr, i) <==> OneOutOf(sol, nr, i)
  {
    var t := OffDiagonal(sol, nr);
    if OneInto(sol, nr, i) {
      var j :| 0 <= j < nr && j != i && sol[j][i] && forall j' :: 0 <= j' < nr && j' != i && sol[j'][i] ==> j' == j;
      assert t[j][i];
    }
    if OneInto(t, nr, i) {
      var j :| 0 <= j < nr && j != i && t[j][i] && forall j' :: 0 <= j' < nr && j' != i && t[j'][i] ==> j' == j;
      assert sol[j][i];
    }
    if OneOutOf(sol, nr, i) {
      var j :| 0 <= j < nr && j != i && sol[i][j] && forall j' :: 0 <= j' < nr && j' != i && sol[i][j'] ==> j' == j;
      assert t[i][j];
    }
    if OneOutOf(t, nr, i) {
      var j :| 0 <= j < nr && j != i && t[i][j] && forall j' :: 0 <= j' < nr && j' != i && t[i][j'] ==> j' == j;
      assert sol[i][j];
    }
  }

  /** Under the degree rows, the arcs between distinct nodes form a permutation matrix. */
  lemma OffDiagonalPermutation(sol: Matrix, nr: nat)
    requires IsSquare(sol, nr) && DegreeRowsHold(sol, nr)
    ensures IsPermutation(OffDiagonal(sol, nr), nr)
  {
    var t := OffDiagonal(sol, nr);
    forall i | 0 <= i < nr ensures OneInRow(t, nr, i) && OneInColumn(t, nr, i) {
      InRowMeaning(sol, nr, i);
      OutRowMeaning(sol, nr, i);
      OffDiagonalSame(sol, nr, i);
      OffDiagonalOne(t, nr, i);
    }
  }

  /**
   * Under the degree rows the tracer moves from i either along i's one arc to
   * another node or, exactly when x[i][i] is selected and that other node is
   * smaller than i, along the self-loop back to i.
   */
  lemma SuccUnderDegreeRows(sol: Matrix, nr: nat, i: int)
    requires IsSquare(sol, nr) && DegreeRowsHold(sol, nr) && 0 <= i < nr
    ensures Succ(sol, nr, i) == i || Succ(sol, nr, i) == Succ(OffDiagonal(sol, nr), nr, i)
    ensures Succ(sol, nr, i) == i <==> sol[i][i] && Succ(OffDiagonal(sol, nr), nr, i) < i
  {
    var t := OffDiagonal(sol, nr);
    OutRowMeaning(sol, nr, i);
    var j :| 0 <= j < nr && j != i && sol[i][j] && forall j' :: 0 <= j' < nr && j' != i && sol[i][j'] ==> j' == j;
    OffDiagonalPermutation(sol, nr);
    PermutationSuccIs(t, nr, i, j);
    var r := Succ(sol, nr, i);
    assert r >= j && sol[i][r];
  }

  /** Under the degree rows, all but the last arc of a trace that never revisits a node leave the diagonal alone. */
  lemma FrontOffDiagonal(sol: Matrix, nr: nat, p: Path)
    requires IsSquare(sol, nr) && DegreeRowsHold(sol, nr) && IsTrace(sol, nr, p)
    ensures IsWalk(OffDiagonal(sol, nr), nr, p[..|p| - 1])
  {
    var t := OffDiagonal(sol, nr);
    var front := p[..|p| - 1];
    forall k | 0 <= k < |front| ensures 0 <= front[k].0 < nr && front[k].1 == Succ(t, nr, front[k].0) {
      assert p[k + 1].0 == p[k].1 && p[k + 1].0 != p[k].0;
      SuccUnderDegreeRows(sol, nr, p[k].0);
    }
    assert forall k :: 0 < k < |front| ==> front[k].0 == front[k - 1].1;
    assert forall k, l :: 0 <= k < l < |front| ==> front[k].0 != front[l].0;
  }

  /**
   * When the callback finds a single path at a point of the degree rows, the
   * arcs between distinct nodes form one Hamiltonian cycle: cycle follows the
   * path on all but its last arc, which returns to the start wherever the
   * path's own last arc closes on a self-loop instead.
   */
  lemma OnePathHamiltonian(sol: Matrix, nr: nat, paths: seq<Path>) returns (cycle: Path)
    requires IsSquare(sol, nr) && DegreeRowsHold(sol, nr)
    requires IsDecomposition(sol, nr, paths) && |paths| == 1
    ensures IsTour(OffDiagonal(sol, nr), nr, cycle)
    ensures |cycle| == |paths[0]| == nr
    ensures cycle[..nr - 1] == paths[0][..nr - 1] && cycle[nr - 1].0 == paths[0][nr - 1].0
    ensures cycle[nr - 1].1 == paths[0][0].0
  {
    SinglePathIsTour(sol, nr, paths);
    SingleCovers(sol, nr, paths);
    cycle := CloseOffDiagonal(sol, nr, paths[0]);
  }

  /** A trace through every node, with its last arc redirected along the diagonal-free arcs, is a tour of them. */
  lemma CloseOffDiagonal(sol: Matrix, nr: nat, p: Path) returns (cycle: Path)
    requires IsSquare(sol, nr) && DegreeRowsHold(sol, nr)
    requires IsTrace(sol, nr, p) && Tails(p) == Range(nr) && |p| == nr
    ensures IsTour(OffDiagonal(sol, nr), nr, cycle)
    ensures |cycle| == nr && cycle[..nr - 1] == p[..nr - 1] && cycle[nr - 1].0 == p[nr - 1].0
    ensures cycle[nr - 1].1 == p[0].0
  {
    var t := OffDiagonal(sol, nr);
    OffDiagonalPermutation(sol, nr);
    var front := p[..nr - 1];
    var last := (p[nr - 1].0, Succ(t, nr, p[nr - 1].0));
    cycle := front + [last];
    FrontOffDiagonal(sol, nr, p);
    LastTailFresh(p);
    ExtendWalk(t, nr, front, last);
    assert p == front + [p[nr - 1]];
    TailsSnoc(front, p[nr - 1]);
    PermutationHasOut(t, nr);
    SuccSelected(t, nr, last.0);
    assert cycle[..nr - 1] == front;
    PermutationCloses(t, nr, cycle);
  }

  /** The last tail of a walk is not among the tails before it. */
  lemma LastTailFresh(p: Path)
    requires |p| > 0 && forall k, l :: 0 <= k < l < |p| ==> p[k].0 != p[l].0
    ensures p[|p| - 1].0 !in Tails(p[..|p| - 1])
  {
    var front := p[..|p| - 1];
    forall a | a in front ensures a.0 != p[|p| - 1].0 {
      var k :| 0 <= k < |front| && front[k] == a;
    }
  }

  /** A walk extended by an arc of sol from its end, to a node it has not left. */
  lemma ExtendWalk(sol: Matrix, n: nat, front: Path, last: Arc)
    requires IsSquare(sol, n) && IsWalk(sol, n, front)
    requires 0 <= last.0 < n && last.1 == Succ(sol, n, last.0)
    requires front != [] ==> front[|front| - 1].1 == last.0
    requires last.0 !in Tails(front)
    ensures IsWalk(sol, n, front + [last]) && Tails(front + [last]) == Tails(front) + {last.0}
  {
    SnocSucc(sol, n, front, last);
    SnocChain(front, last);
    SnocDistinct(front, last);
    TailsSnoc(front, last);
  }

  /**
   * The degree rows let a self-loop stand in for the arc that closes the tour:
   * on two nodes, selecting 0 -> 1, 1 -> 0 and 1 -> 1 satisfies every degree
   * row and is not a permutation matrix, and the callback's decomposition is
   * the single path 0 -> 1 -> 1, which closes on node 1 rather than returning
   * to 0, so no cut is generated.
   */
  lemma SelfLoopAccepted()
    ensures var sol := [[false, true], [true, true]];
      IsSquare(sol, 2) && DegreeRowsHold(sol, 2) && !IsPermutation(sol, 2) &&
      IsDecomposition(sol, 2, [[(0, 1), (1, 1)]])
  {
    SelfLoopRows();
    SelfLoopDecomposition();
  }

  lemma SelfLoopRows()
    ensures var sol := [[false, true], [true, true]];
      IsSquare(sol, 2) && DegreeRowsHold(sol, 2) && !IsPermutation(sol, 2)
  {
    var sol := [[false, true], [true, true]];
    forall i | 0 <= i < 2 ensures Satisfied(InRow(2, i), Indicator(sol)) && Satisfied(OutRow(2, i), Indicator(sol)) {
      InRowMeaning(sol, 2, i);
      OutRowMeaning(sol, 2, i);
      assert sol[1 - i][i] && sol[i][1 - i];
    }
    assert !OneInRow(sol, 2, 1) by {
      forall j | 0 <= j < 2 && sol[1][j] ensures exists j' :: 0 <= j' < 2 && sol[1][j'] && j' != j {
        assert sol[1][1 - j];
      }
    }
  }

  lemma SelfLoopDecomposition()
    ensures var sol := [[false, true], [true, true]];
      IsSquare(sol, 2) && IsDecomposition(sol, 2, [[(0, 1), (1, 1)]])
  {
    var sol := [[false, true], [true, true]];
    var path := [(0, 1), (1, 1)];
    SuccIs(sol, 2, 0, 1);
    SuccIs(sol, 2, 1, 1);
    TailsSnoc([], (0, 1));
    TailsSnoc([(0, 1)], (1, 1));
    assert Tails(path) == Range(2);
    assert IsTrace(sol, 2, path);
    CoveredSingle(path);
    var paths: seq<Path> := [path];
    assert paths[..0] == [];
    assert WellPlaced(sol, 2, paths, 0);
  }

  /** The point that selects the arcs of sol and gives z the value z. */
  function Point(sol: Matrix, z: real): (x: Var -> real)
    ensures x(Z) == z
  {
    v => if v == Z then z else Indicator(sol)(v)
  }

  /** The cost of the selection sol in the scenario with cost vector c. */
  ghost function ScenarioCost(c: seq<real>, nr: nat, sol: Matrix): real
    requires nr * nr <= |c|
  {
    Value(CostExpr(c, nr), Indicator(sol))
  }

  /** A linear expression without z has the same value at Point(sol, z) as at the 0/1 point of sol. */
  lemma ValueWithoutZ(e: map<Var, real>, sol: Matrix, z: real)
    requires Z !in e
    ensures Value(e, Point(sol, z)) == Value(e, Indicator(sol))
  {
    SumCongruent(e.Keys, Weighted(e, Point(sol, z)), Weighted(e, Indicator(sol)));
  }

  /** Every row of the model holds at the point. */
  ghost predicate AllRowsHold(rows: seq<Constraint>, x: Var -> real)
  {
    forall r :: 0 <= r < |rows| ==> Satisfied(rows[r], x)
  }

  /** What each row of the model says at the point (sol, z). */
  lemma RowsAtPoint(c: seq<seq<real>>, nr: nat, sol: Matrix, z: real)
    requires forall k :: 0 <= k < |c| ==> nr * nr <= |c[k]|
    requires IsSquare(sol, nr)
    ensures forall k :: 0 <= k < |c| ==>
              (Satisfied(ModelRows(c, nr)[k], Point(sol, z)) <==> z >= ScenarioCost(c[k], nr, sol))
    ensures forall i :: 0 <= i < nr ==>
              (Satisfied(ModelRows(c, nr)[|c| + i], Point(sol, z)) <==> Satisfied(InRow(nr, i), Indicator(sol))) &&
              (Satisfied(ModelRows(c, nr)[|c| + nr + i], Point(sol, z)) <==> Satisfied(OutRow(nr, i), Indicator(sol)))
  {
    var rows := ModelRows(c, nr);
    var x := Point(sol, z);
    forall k | 0 <= k < |c| ensures Satisfied(rows[k], x) <==> z >= ScenarioCost(c[k], nr, sol) {
      assert rows[k] == ScenarioRow(c[k], nr);
      ScenarioMeaning(c[k], nr, x);
      ValueWithoutZ(CostExpr(c[k], nr), sol, z);
    }
    forall i | 0 <= i < nr
      ensures Satisfied(rows[|c| + i], x) <==> Satisfied(InRow(nr, i), Indicator(sol))
      ensures Satisfied(rows[|c| + nr + i], x) <==> Satisfied(OutRow(nr, i), Indicator(sol))
    {
      assert rows[|c| + i] == InRow(nr, i) && rows[|c| + nr + i] == OutRow(nr, i);
      ValueWithoutZ(InRow(nr, i).coefs, sol, z);
      ValueWithoutZ(OutRow(nr, i).coefs, sol, z);
    }
  }

  /**
   * With no diagonal arc selected, the point (sol, z) satisfies every row
   * solve_ip adds exactly when sol is a permutation matrix and z is at least
   * the cost of sol in every scenario.
   */
  lemma ModelRowsMeaning(c: seq<seq<real>>, nr: nat, sol: Matrix, z: real)
    requires forall k :: 0 <= k < |c| ==> nr * nr <= |c[k]|
    requires IsSquare(sol, nr) && forall i :: 0 <= i < nr ==> !sol[i][i]
    ensures AllRowsHold(ModelRows(c, nr), Point(sol, z)) <==>
              IsPermutation(sol, nr) && forall k :: 0 <= k < |c| ==> z >= ScenarioCost(c[k], nr, sol)
  {
    var rows := ModelRows(c, nr);
    var x := Point(sol, z);
    RowsAtPoint(c, nr, sol, z);
    DegreeRowsPermutation(sol, nr);
    if AllRowsHold(rows, x) {
      forall i | 0 <= i < nr ensures Satisfied(InRow(nr, i), Indicator(sol)) && Satisfied(OutRow(nr, i), Indicator(sol)) {
        assert Satisfied(rows[|c| + i], x) && Satisfied(rows[|c| + nr + i], x);
      }
      forall k | 0 <= k < |c| ensures z >= ScenarioCost(c[k], nr, sol) {
        assert Satisfied(rows[k], x);
      }
    }
    if IsPermutation(sol, nr) && forall k :: 0 <= k < |c| ==> z >= ScenarioCost(c[k], nr, sol) {
      forall r | 0 <= r < |rows| ensures Satisfied(rows[r], x) {
        if r < |c| {
        } else if r < |c| + nr {
          assert rows[|c| + (r - |c|)] == rows[r];
        } else {
          assert rows[|c| + nr + (r - |c| - nr)] == rows[r];
        }
      }
    }
  }

  // ---------------------------------------------------------------------------
  // The flat solution vector

  /** Entry t < nr * nr of the flattened matrix vals: the value of arc (t / nr, t % nr). */
  function FlatValue(vals: seq<seq<real>>, nr: nat, t: int): real
    requires |vals| == nr && (forall i :: 0 <= i < nr ==> |vals[i]| == nr)
    requires 0 <= t < nr * nr
  {
    FlatIndexEncode(nr, t);
    vals[t / nr][t % nr]
  }

  /** The flat vector of length n holding arc (i, j)'s value at dmap[i][j] and 0 elsewhere. */
  function Flat(vals: seq<seq<real>>, nr: nat, n: nat): (x: seq<real>)
    requires |vals| == nr && (forall i :: 0 <= i < nr ==> |vals[i]| == nr)
    ensures |x| == n
  {
    seq(n, t => if 0 <= t < nr * nr then FlatValue(vals, nr, t) else 0.0)
  }

  /** The matrix read back from a flat vector by x[i * nr + j]. */
  function Unflat(x: seq<real>, nr: nat): (vals: seq<seq<real>>)
    requires nr * nr <= |x|
    ensures |vals| == nr && forall i :: 0 <= i < nr ==> |vals[i]| == nr
  {
    seq(nr, i requires 0 <= i < nr => seq(nr, j requires 0 <= j < nr => FlatIndexDecode(nr, i, j); x[FlatIndex(nr, i, j)]))
  }

  /** Arc (i, j)'s value sits at its flat index. */
  lemma FlatAt(vals: seq<seq<real>>, nr: nat, n: nat, i: int, j: int)
    requires |vals| == nr && (forall a :: 0 <= a < nr ==> |vals[a]| == nr)
    requires nr * nr <= n && 0 <= i < nr && 0 <= j < nr
    ensures 0 <= FlatIndex(nr, i, j) < n && Flat(vals, nr, n)[FlatIndex(nr, i, j)] == vals[i][j]
  {
    FlatIndexDecode(nr, i, j);
  }

  /** Reading the flat vector back by the index map gives the matrix again. */
  lemma FlatRoundTrip(vals: seq<seq<real>>, nr: nat, n: nat)
    requires |vals| == nr && (forall a :: 0 <= a < nr ==> |vals[a]| == nr)
    requires nr * nr <= n
    ensures Unflat(Flat(vals, nr, n), nr) == vals
  {
    var back := Unflat(Flat(vals, nr, n), nr);
    forall i | 0 <= i < nr ensures back[i] == vals[i] {
      forall j | 0 <= j < nr ensures back[i][j] == vals[i][j] {
        FlatAt(vals, nr, n, i, j);
      }
    }
  }

  /**
   * The copy-back loop of solve_ip: x starts as n zeros and x[dmap[i][j]]
   * receives the value of arc (i, j).
   */
  method Flatten(vals: seq<seq<real>>, nr: nat, n: nat, dmap: seq<seq<int>>) returns (x: array<real>)
    requires |vals| == nr && (forall i :: 0 <= i < nr ==> |vals[i]| == nr)
    requires IsIndexMap(dmap, nr) && nr * nr <= n
    ensures fresh(x) && x[..] == Flat(vals, nr, n)
  {
    x := new real[n](_ => 0.0);
    ghost var flat := Flat(vals, nr, n);
    for i := 0 to nr
      invariant x.Length == n
      invariant forall t :: 0 <= t < n ==> x[t] == if t < i * nr then flat[t] else 0.0
    {
      for j := 0 to nr
        invariant forall t :: 0 <= t < n ==> x[t] == if t < i * nr + j then flat[t] else 0.0
      {
        FlatAt(vals, nr, n, i, j);
        x[dmap[i][j]] := vals[i][j];
      }
      assert i * nr + nr == (i + 1) * nr;
    }
    assert x[..] == flat;
  }
}
