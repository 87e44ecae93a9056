/** What several models share. */
module Basics {

  datatype Option<+T> = None | Some(value: T)

  type byte = x: int | 0 <= x < 256

  function Min(a: int, b: int): int { if a <= b then a else b }

  function Max(a: int, b: int): int { if a >= b then a else b }

  function Abs(x: int): nat { if x >= 0 then x else -x }

  function MinReal(a: real, b: real): real { if a <= b then a else b }

  function MaxReal(a: real, b: real): real { if a >= b then a else b }

  predicate Increasing(idx: seq<nat>) {
    forall j, k :: 0 <= j < k < |idx| ==> idx[j] < idx[k]
  }

  lemma Increases(first: nat, idx: seq<nat>)
    requires Increasing(idx) && forall i :: i in idx ==> first < i
    ensures Increasing([first] + idx)
    ensures forall i :: i in [first] + idx <==> i == first || i in idx
  {
    assert forall k :: 0 <= k < |idx| ==> idx[k] in idx;
  }

  /** A set that holds 0 .. n - 1 has at least n elements ... */
  lemma {:induction false} RangeFits(n: nat, ks: set<int>)
    requires forall i :: 0 <= i < n ==> i in ks
    ensures |ks| >= n
  {
    if n > 0 { RangeFits(n - 1, ks - {n - 1}); }
  }

  /** ... and one within it at most n, all of them if it has n. */
  lemma {:induction false} RangeFilled(n: nat, ks: set<int>)
    requires forall i :: i in ks ==> 0 <= i < n
    ensures |ks| <= n
    ensures |ks| == n ==> forall i :: 0 <= i < n ==> i in ks
  {
    if n > 0 {
      RangeFilled(n - 1, ks - {n - 1});
      if |ks| == n {
        assert n - 1 !in ks ==> ks - {n - 1} == ks;
        forall i | 0 <= i < n ensures i in ks { assert i < n - 1 ==> i in ks - {n - 1}; }
      }
    } else {
      assert forall i :: i !in ks;
      assert ks == {};
    }
  }
}
