/** Finite sets as termination measures. */
module Finite {
  lemma SubsetSize<T>(a: set<T>, b: set<T>)
    requires a <= b
    ensures |a| <= |b|
    ensures a != b ==> |a| < |b|
  {
    assert b == a + (b - a);
    if a != b {
      var x :| x in b && x !in a;
      assert x in b - a;
    }
  }

  /** The numbers below `n`. */
  function Ids(n: nat): (ids: set<nat>)
    ensures forall id: nat :: id in ids <==> id < n
  {
    if n == 0 then {} else Ids(n - 1) + {n - 1}
  }

  /** How many of them have not been seen. */
  function Left(n: nat, seen: set<nat>): nat {
    |Ids(n) - seen|
  }

  lemma LeftShrinks(n: nat, seen: set<nat>, seen': set<nat>)
    requires seen <= seen'
    ensures Left(n, seen') <= Left(n, seen)
    ensures forall id: nat | id < n && id !in seen && id in seen' :: Left(n, seen') < Left(n, seen)
  {
    var a, b := Ids(n) - seen', Ids(n) - seen;
    SubsetSize(a, b);
    forall id: nat | id < n && id !in seen && id in seen'
      ensures |a| < |b|
    {
      assert id in b && id !in a;
    }
  }
}
