/** Sums of table entries over finite sets, and the set facts the other modules lean on. */
module Sums {

  /** The sum of `m[x]` over `x` in `s`; an element without an entry counts 0. */
  ghost function SumOver<T>(m: map<T, nat>, s: set<T>): nat
    decreases |s|
  {
    if s == {} then 0 else var x :| x in s; Entry(m, x) + SumOver(m, s - {x})
  }

  function Entry<T(==)>(m: map<T, nat>, x: T): nat {
    if x in m then m[x] else 0
  }

  lemma SumEmpty<T>(m: map<T, nat>)
    ensures SumOver(m, {}) == 0
  {
  }

  /** The order in which a sum is taken does not matter. */
  lemma {:induction false} SumPick<T>(m: map<T, nat>, s: set<T>, y: T)
    requires y in s
    ensures SumOver(m, s) == Entry(m, y) + SumOver(m, s - {y})
    decreases |s|
  {
    var x :| x in s && SumOver(m, s) == Entry(m, x) + SumOver(m, s - {x});
    if x != y {
      SumPick(m, s - {x}, y);
      SumPick(m, s - {y}, x);
      assert s - {x} - {y} == s - {y} - {x};
    }
  }

  lemma SumAdd<T>(m: map<T, nat>, s: set<T>, y: T)
    requires y !in s
    ensures SumOver(m, s + {y}) == SumOver(m, s) + Entry(m, y)
  {
    hide SumOver;
    SumPick(m, s + {y}, y);
    assert s + {y} - {y} == s;
  }

  lemma {:induction false} SumUnion<T>(m: map<T, nat>, a: set<T>, b: set<T>)
    requires a !! b
    ensures SumOver(m, a + b) == SumOver(m, a) + SumOver(m, b)
    decreases |b|
  {
    hide SumOver;
    if b == {} {
      assert a + b == a;
      SumEmpty(m);
    } else {
      var y :| y in b;
      SumPick(m, b, y);
      SumUnion(m, a, b - {y});
      assert a + b == (a + (b - {y})) + {y};
      SumAdd(m, a + (b - {y}), y);
    }
  }

  lemma SumMonotone<T>(m: map<T, nat>, a: set<T>, b: set<T>)
    requires a <= b
    ensures SumOver(m, a) <= SumOver(m, b)
  {
    hide SumOver;
    SumUnion(m, a, b - a);
    assert a + (b - a) == b;
  }

  /** Elements without an entry do not change a sum. */
  lemma {:induction false} SumKnown<T>(m: map<T, nat>, s: set<T>)
    ensures SumOver(m, s) == SumOver(m, s * m.Keys)
    decreases |s|
  {
    hide SumOver;
    if x :| x in s && x !in m {
      SumPick(m, s, x);
      SumKnown(m, s - {x});
      assert (s - {x}) * m.Keys == s * m.Keys;
    } else {
      assert s * m.Keys == s;
    }
  }

  lemma {:induction false} SumAgree<T>(m: map<T, nat>, n: map<T, nat>, s: set<T>)
    requires forall x | x in s :: Entry(m, x) == Entry(n, x)
    ensures SumOver(m, s) == SumOver(n, s)
    decreases |s|
  {
    hide SumOver;
    if x :| x in s {
      SumPick(m, s, x);
      SumPick(n, s, x);
      SumAgree(m, n, s - {x});
    } else {
      SumEmpty(m);
      SumEmpty(n);
    }
  }

  /** The numbers below `n`. */
  ghost function Below(n: nat): (below: set<nat>)
    ensures |below| == n && forall x: nat :: x in below <==> x < n
  {
    if n == 0 then {} else Below(n - 1) + {n - 1}
  }

  lemma SubsetCard<T>(a: set<T>, b: set<T>)
    requires a <= b
    ensures |a| <= |b|
    ensures a != b ==> |a| < |b|
  {
    assert b == a + (b - a);
  }

  lemma CountOneMore<T>(a: set<T>, s: set<T>, x: T)
    requires x !in s
    ensures |a * (s + {x})| == |a * s| + if x in a then 1 else 0
    ensures a * (s + {x}) == {} <==> a * s == {} && x !in a
  {
    assert a * (s + {x}) == if x in a then a * s + {x} else a * s;
  }
}
