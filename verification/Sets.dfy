/** Sizes of finite sets of numbers. */
module Sets {

  /** The n numbers from lo on. */
  function Range(lo: nat, n: nat): (r: set<nat>)
    ensures forall x: nat :: x in r <==> lo <= x < lo + n
  {
    if n == 0 then {} else Range(lo, n - 1) + {lo + n - 1}
  }

  lemma {:induction false} RangeSize(lo: nat, n: nat)
    ensures |Range(lo, n)| == n
  {
    if n > 0 { RangeSize(lo, n - 1); }
  }

  lemma SubsetSize<T>(A: set<T>, B: set<T>)
    requires A <= B
    ensures |A| <= |B|
    ensures A != B ==> |A| < |B|
  {
    assert B == A + (B - A);
    if A != B { assert B - A != {}; }
  }

  lemma {:induction false} SizeBound(S: set<nat>, n: nat)
    requires forall p :: p in S ==> p < n
    ensures |S| <= n
  {
    if n == 0 {
      assert S == {};
    } else {
      SizeBound(S - {n - 1}, n - 1);
      if n - 1 in S { assert |S| == |S - {n - 1}| + 1; } else { assert S - {n - 1} == S; }
    }
  }
}
