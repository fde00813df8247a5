/** Finite sets of consecutive numbers and how large they are. */
module Ranges {

  function Range(a: nat, e: nat): (r: set<nat>)
    ensures forall p: nat :: p in r <==> a <= p < e
    decreases e
  {
    if a >= e then {} else Range(a, e - 1) + {e - 1}
  }

  lemma {:induction false} RangeSize(a: nat, e: nat)
    requires a <= e
    ensures |Range(a, e)| == e - a
    decreases e
  {
    if a < e {
      RangeSize(a, e - 1);
    }
  }

  lemma DisjointSum(a: set<nat>, b: set<nat>)
    requires a !! b
    ensures |a + b| == |a| + |b|
  {
  }

  /** A union is as large as its parts together exactly when they are disjoint. */
  lemma UnionSize(a: set<nat>, b: set<nat>)
    ensures |a + b| <= |a| + |b|
    ensures |a + b| == |a| + |b| <==> a !! b
  {
    assert a + b == a + (b - a);
    DisjointSum(a, b - a);
    SubsetSize(b - a, b);
    assert b - a == b <==> a !! b;
  }

  lemma SubsetSize(a: set<nat>, b: set<nat>)
    requires a <= b
    ensures |a| <= |b|
    ensures |a| == |b| ==> a == b
  {
    assert b == a + (b - a);
    DisjointSum(a, b - a);
  }
}
