/**
 * The narrow view of the solver backend that the routing oracle uses:
 * model variables, range constraints over them, and what it means for a
 * point to satisfy such a constraint.
 */
module Lp {

  datatype Option<T> = None | Some(value: T)

  /** A model variable: the arc variable x[i][j] (tail i, head j) or the objective variable z. */
  datatype Var = X(tail: int, head: int) | Z

  /**
   * A range constraint  lo <= sum over v in coefs of coefs[v] * v <= hi.
   * Setting a coefficient twice overwrites it, so the coefficients form a map.
   * hi == None stands for an upper bound of +infinity.
   */
  datatype Constraint = Constraint(coefs: map<Var, real>, lo: real, hi: Option<real>)

  /** The map giving coefficient 1 to every variable of vs. */
  function Unit(vs: set<Var>): (m: map<Var, real>)
    ensures m.Keys == vs
    ensures forall v :: v in m ==> m[v] == 1.0
  {
    map v | v in vs :: 1.0
  }

  ghost function Choose(s: set<Var>): Var
    requires s != {}
  {
    var v :| v in s; v
  }

  /** The sum of f over the finite set s. */
  ghost function Sum(s: set<Var>, f: Var -> real): real
    decreases s
  {
    if s == {} then 0.0 else f(Choose(s)) + Sum(s - {Choose(s)}, f)
  }

  /** The contribution coefs[v] * x(v) of each variable to a linear expression. */
  function Weighted(coefs: map<Var, real>, x: Var -> real): Var -> real
  {
    v => if v in coefs then coefs[v] * x(v) else 0.0
  }

  /** The value at the point x of the linear expression with coefficients coefs. */
  ghost function Value(coefs: map<Var, real>, x: Var -> real): real
  {
    Sum(coefs.Keys, Weighted(coefs, x))
  }

  /** The value of a constraint's linear expression at the point x. */
  ghost function Lhs(c: Constraint, x: Var -> real): real
  {
    Value(c.coefs, x)
  }

  ghost predicate Satisfied(c: Constraint, x: Var -> real)
  {
    c.lo <= Lhs(c, x) && (c.hi.Some? ==> Lhs(c, x) <= c.hi.value)
  }

  /** Sum does not depend on which member Choose takes first. */
  lemma {:induction false} SumRemove(s: set<Var>, f: Var -> real, v: Var)
    requires v in s
    ensures Sum(s, f) == f(v) + Sum(s - {v}, f)
    decreases s
  {
    var w := Choose(s);
    if w != v {
      SumRemove(s - {w}, f, v);
      SumRemove(s - {v}, f, w);
      assert s - {w} - {v} == s - {v} - {w};
    }
  }

  /** Functions that agree on s have the same sum over s. */
  lemma {:induction false} SumCongruent(s: set<Var>, f: Var -> real, g: Var -> real)
    requires forall v :: v in s ==> f(v) == g(v)
    ensures Sum(s, f) == Sum(s, g)
    decreases s
  {
    if s != {} {
      SumCongruent(s - {Choose(s)}, f, g);
    }
  }

  /** Negating every summand negates the sum. */
  lemma {:induction false} SumNegate(s: set<Var>, f: Var -> real, g: Var -> real)
    requires forall v :: v in s ==> g(v) == -f(v)
    ensures Sum(s, g) == -Sum(s, f)
    decreases s
  {
    if s != {} {
      SumNegate(s - {Choose(s)}, f, g);
    }
  }

  /** The members of s at which f is 1. */
  ghost function Ones(s: set<Var>, f: Var -> real): set<Var>
  {
    set v | v in s && f(v) == 1.0
  }

  /** A sum of zeros and ones counts the ones. */
  lemma {:induction false} SumOfIndicator(s: set<Var>, f: Var -> real)
    requires forall v :: v in s ==> f(v) == 0.0 || f(v) == 1.0
    ensures Sum(s, f) == |Ones(s, f)| as real
    decreases s
  {
    if s != {} {
      var v := Choose(s);
      SumOfIndicator(s - {v}, f);
      if f(v) == 1.0 {
        assert Ones(s, f) == Ones(s - {v}, f) + {v};
      } else {
        assert Ones(s, f) == Ones(s - {v}, f);
      }
    } else {
      assert Ones(s, f) == {};
    }
  }

  /**
   * The 0/1 point that gives arc variable X(i, j) the value 1 exactly when
   * sol[i][j] holds; z is 0.
   */
  function Indicator(sol: seq<seq<bool>>): (x: Var -> real)
    ensures forall i, j :: 0 <= i < |sol| && 0 <= j < |sol[i]| ==> x(X(i, j)) == if sol[i][j] then 1.0 else 0.0
  {
    (v: Var) => if v.X? && 0 <= v.tail < |sol| && 0 <= v.head < |sol[v.tail]| && sol[v.tail][v.head] then 1.0 else 0.0
  }
}
