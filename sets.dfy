/**
 * Finite-set facts over node numbers, used by the termination and counting
 * arguments of the cycle decomposition.
 */
module Sets {

  /** The node numbers 0 .. n-1. */
  function Range(n: int): (r: set<int>)
    ensures forall x :: x in r <==> 0 <= x < n
    decreases n
  {
    if n <= 0 then {} else Range(n - 1) + {n - 1}
  }

  lemma {:induction false} RangeCard(n: nat)
    ensures |Range(n)| == n
  {
    if n > 0 {
      RangeCard(n - 1);
    }
  }

  lemma {:induction false} SubsetCard<T>(a: set<T>, b: set<T>)
    requires a <= b
    ensures |a| <= |b|
    decreases b
  {
    if a != {} {
      var x :| x in a;
      SubsetCard(a - {x}, b - {x});
    }
  }

  /** A set of nodes drawn from 0 .. n-1 has at most n members. */
  lemma BoundedCard(s: set<int>, n: nat)
    requires forall x :: x in s ==> 0 <= x < n
    ensures |s| <= n
  {
    RangeCard(n);
    SubsetCard(s, Range(n));
  }

  /** m is the least element of s. */
  predicate IsLeast(m: int, s: set<int>)
  {
    m in s && forall u :: u in s ==> m <= u
  }

  /** Some member of a non-empty set. */
  lemma Pick<T>(s: set<T>) returns (x: T)
    requires s != {}
    ensures x in s
  {
    x :| x in s;
  }

  /** Every non-empty finite set of integers has a least element. */
  lemma {:induction false} Least(s: set<int>) returns (m: int)
    requires s != {}
    ensures IsLeast(m, s)
    decreases s
  {
    var x := Pick(s);
    var rest := s - {x};
    if rest == {} {
      assert s == {x};
      m := x;
    } else {
      var r := Least(rest);
      assert s == rest + {x};
      m := if x < r then x else r;
    }
  }

  /** A set with exactly one member is a singleton. */
  lemma CardOne<T>(s: set<T>)
    requires |s| == 1
    ensures exists w :: s == {w}
  {
    var w := Pick(s);
    assert |s - {w}| == 0;
    assert s == {w};
  }
}
