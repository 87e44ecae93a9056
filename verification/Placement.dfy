/** The integer apportionment of gb_placement.py (`proportional_split`) and the pull counts
    that `cluster_map` takes from it (`_adaptive_pull_count`, gb_cluster.py). */
module Placement {
  import opened Basics

  function Sum(s: seq<int>): int {
    if s == [] then 0 else Sum(s[..|s| - 1]) + s[|s| - 1]
  }

  function Positive(w: real): real {
    MaxReal(w, 0.0)
  }

  function PositiveSum(weights: seq<real>): real {
    if weights == [] then 0.0 else PositiveSum(weights[..|weights| - 1]) + Positive(weights[|weights| - 1])
  }

  /** `sum(w for w in weights if w > 0) or 1.0`. */
  function Scale(weights: seq<real>): real {
    if PositiveSum(weights) == 0.0 then 1.0 else PositiveSum(weights)
  }

  // ---------------------------------------------------------------- shares

  function Share(total: nat, weights: seq<real>, i: nat): real
    requires i < |weights| && Scale(weights) > 0.0
  {
    total as real * Positive(weights[i]) / Scale(weights)
  }

  function Shares(total: nat, weights: seq<real>): seq<real>
    requires Scale(weights) > 0.0
  {
    seq(|weights|, i requires 0 <= i < |weights| => Share(total, weights, i))
  }

  function Floors(shares: seq<real>): seq<int> {
    seq(|shares|, i requires 0 <= i < |shares| => shares[i].Floor)
  }

  function Remainders(shares: seq<real>): seq<real> {
    seq(|shares|, i requires 0 <= i < |shares| => shares[i] - shares[i].Floor as real)
  }

  // ---------------------------------------------------------------- ranking

  /** Insertion after every index whose key is at least as large. */
  function Rank(order: seq<nat>, keys: seq<real>, i: nat): seq<nat>
    requires i < |keys| && forall k :: 0 <= k < |order| ==> order[k] < |keys|
  {
    if order == [] || keys[i] > keys[order[0]] then [i] + order else [order[0]] + Rank(order[1..], keys, i)
  }

  /** `sorted(range(n), key=keys, reverse=True)`: by key, largest first, lower index first
      among equals. */
  function Ranking(keys: seq<real>, n: nat): (r: seq<nat>)
    requires n <= |keys|
    ensures forall k :: 0 <= k < |r| ==> r[k] < n
  {
    if n == 0 then []
    else
      RankBelow(Ranking(keys, n - 1), keys, n - 1, n);
      Rank(Ranking(keys, n - 1), keys, n - 1)
  }

  lemma {:induction false} RankBelow(order: seq<nat>, keys: seq<real>, i: nat, n: nat)
    requires i < n <= |keys| && forall k :: 0 <= k < |order| ==> order[k] < n
    ensures forall k :: 0 <= k < |Rank(order, keys, i)| ==> Rank(order, keys, i)[k] < n
    ensures |Rank(order, keys, i)| == |order| + 1
    ensures forall x :: x in Rank(order, keys, i) <==> x == i || x in order
  {
    if !(order == [] || keys[i] > keys[order[0]]) {
      RankBelow(order[1..], keys, i, n);
      assert order == [order[0]] + order[1..];
    }
  }

  predicate Distinct(s: seq<nat>) {
    forall i, j :: 0 <= i < j < |s| ==> s[i] != s[j]
  }

  predicate Outranks(keys: seq<real>, i: nat, j: nat)
    requires i < |keys| && j < |keys|
  {
    keys[i] > keys[j] || (keys[i] == keys[j] && i < j)
  }

  /** Larger keys first, lower indices first among equal ones. */
  predicate Ranked(order: seq<nat>, keys: seq<real>) {
    && (forall k :: 0 <= k < |order| ==> order[k] < |keys|)
    && forall i, j :: 0 <= i < j < |order| ==> Outranks(keys, order[i], order[j])
  }

  lemma {:induction false} RankSorts(order: seq<nat>, keys: seq<real>, i: nat)
    requires i < |keys| && Ranked(order, keys) && Distinct(order) && forall k :: 0 <= k < |order| ==> order[k] < i
    ensures Ranked(Rank(order, keys, i), keys) && Distinct(Rank(order, keys, i))
  {
    if !(order == [] || keys[i] > keys[order[0]]) {
      var rest := Rank(order[1..], keys, i);
      RankSorts(order[1..], keys, i);
      RankBelow(order[1..], keys, i, |keys|);
      forall k | 0 <= k < |rest| ensures Outranks(keys, order[0], rest[k]) && rest[k] != order[0] {
        assert rest[k] in rest;
      }
    }
  }

  /** The ranking is a permutation of the indices, largest key first. */
  lemma {:induction false} RankingSpec(keys: seq<real>, n: nat)
    requires n <= |keys|
    ensures var r := Ranking(keys, n);
            |r| == n && Ranked(r, keys) && Distinct(r) && forall x: nat :: x in r <==> x < n
  {
    if n > 0 {
      RankingSpec(keys, n - 1);
      RankSorts(Ranking(keys, n - 1), keys, n - 1);
      RankBelow(Ranking(keys, n - 1), keys, n - 1, n);
    }
  }

  // ---------------------------------------------------------------- leftovers

  /** One more for each of these indices. */
  function Bump(result: seq<int>, order: seq<nat>): seq<int>
    requires forall k :: 0 <= k < |order| ==> order[k] < |result|
    ensures |Bump(result, order)| == |result|
  {
    if order == [] then result
    else
      var n := |order| - 1;
      var before := Bump(result, order[..n]);
      before[order[n] := before[order[n]] + 1]
  }

  lemma {:induction false} SumUpdate(s: seq<int>, i: nat, x: int)
    requires i < |s|
    ensures Sum(s[i := x]) == Sum(s) - s[i] + x
  {
    var n := |s| - 1;
    if i < n {
      assert s[i := x][..n] == s[..n][i := x];
      SumUpdate(s[..n], i, x);
    } else {
      assert s[i := x][..n] == s[..n];
    }
  }

  lemma {:induction false} BumpSpec(result: seq<int>, order: seq<nat>)
    requires Distinct(order) && forall k :: 0 <= k < |order| ==> order[k] < |result|
    ensures Sum(Bump(result, order)) == Sum(result) + |order|
    ensures forall i: nat :: i < |result| ==> Bump(result, order)[i] == result[i] + if i in order then 1 else 0
  {
    if order != [] {
      var n := |order| - 1;
      BumpSpec(result, order[..n]);
      SumUpdate(Bump(result, order[..n]), order[n], Bump(result, order[..n])[order[n]] + 1);
      assert order == order[..n] + [order[n]];
    }
  }

  /** The split before minimums: floors, then one more for the largest remainders. */
  function Leftover(total: nat, shares: seq<real>): int {
    total - Sum(Floors(shares))
  }

  function Apportion(total: nat, shares: seq<real>): seq<int> {
    var ranking := Ranking(Remainders(shares), |shares|);
    var n := Max(0, Min(Leftover(total, shares), |ranking|));
    Bump(Floors(shares), ranking[..n])
  }

  // ---------------------------------------------------------------- minimums

  /** `max(range(n), key=result)`: the first of the largest. */
  function Donor(result: seq<int>, n: nat): (d: nat)
    requires 1 <= n <= |result|
    ensures d < n && (forall j :: 0 <= j < n ==> result[j] <= result[d])
    ensures forall j :: 0 <= j < d ==> result[j] < result[d]
  {
    if n == 1 then 0
    else
      var d := Donor(result, n - 1);
      if result[n - 1] > result[d] then n - 1 else d
  }

  function Steal(result: seq<int>, i: nat, m: int): seq<int>
    requires i < |result|
    ensures |Steal(result, i, m)| == |result|
    decreases m - result[i]
  {
    if result[i] >= m then result
    else
      var d := Donor(result, |result|);
      if result[d] <= m then result
      else Steal(result[d := result[d] - 1][i := result[i] + 1], i, m)
  }

  function Fill(result: seq<int>, mins: seq<int>, k: nat): seq<int>
    requires k <= |mins| <= |result|
    ensures |Fill(result, mins, k)| == |result|
  {
    if k == 0 then result else Steal(Fill(result, mins, k - 1), k - 1, mins[k - 1])
  }

  function Split(total: int, weights: seq<real>, mins: seq<int>): seq<int>
    requires Scale(weights) > 0.0 && |mins| <= |weights|
  {
    if weights == [] || total <= 0 then seq(|weights|, _ => 0)
    else Fill(Apportion(total, Shares(total, weights)), mins, |mins|)
  }

  /** `proportional_split`; without minimums `mins` is empty. */
  method ProportionalSplit(total: int, weights: seq<real>, mins: seq<int>) returns (result: seq<int>)
    requires |mins| <= |weights|
    ensures Scale(weights) > 0.0 && result == Split(total, weights, mins)
  {
    ScalePositive(weights);
    var n := |weights|;
    if n == 0 || total <= 0 { return seq(n, _ => 0); }
    result := DealLeftover(total, Shares(total, weights));
    result := FillMinimums(result, mins);
  }

  /** The floors, and the loop over the largest remainders. */
  method DealLeftover(total: nat, shares: seq<real>) returns (result: seq<int>)
    ensures result == Apportion(total, shares)
  {
    var n := |shares|;
    result := Floors(shares);
    var leftover := Leftover(total, shares);
    var order := Ranking(Remainders(shares), n);
    RankingSpec(Remainders(shares), n);
    var count := Max(0, Min(leftover, n));
    for k := 0 to count
      invariant |result| == n && result == Bump(Floors(shares), order[..k])
    {
      assert order[..k + 1][..k] == order[..k];
      result := result[order[k] := result[order[k]] + 1];
    }
  }

  method FillMinimums(start: seq<int>, mins: seq<int>) returns (result: seq<int>)
    requires |mins| <= |start|
    ensures result == Fill(start, mins, |mins|)
  {
    result := start;
    for i := 0 to |mins|
      invariant result == Fill(start, mins, i)
    {
      var m := mins[i];
      ghost var before := result;
      while result[i] < m
        invariant |result| == |start| && Steal(result, i, m) == Steal(before, i, m)
        decreases m - result[i]
      {
        var donor := Donor(result, |result|);
        if result[donor] <= m { break; }
        result := result[donor := result[donor] - 1][i := result[i] + 1];
      }
    }
  }

  // ---------------------------------------------------------------- exact sum

  lemma {:induction false} PositiveSumSpec(weights: seq<real>)
    ensures PositiveSum(weights) >= 0.0
    ensures PositiveSum(weights) > 0.0 <==> exists i :: 0 <= i < |weights| && weights[i] > 0.0
  {
    if weights != [] {
      var n := |weights| - 1;
      PositiveSumSpec(weights[..n]);
      if exists i :: 0 <= i < |weights| && weights[i] > 0.0 {
        var i :| 0 <= i < |weights| && weights[i] > 0.0;
        if i < n { assert weights[..n][i] > 0.0; }
      }
    }
  }

  lemma ScalePositive(weights: seq<real>)
    ensures Scale(weights) > 0.0
  {
    PositiveSumSpec(weights);
  }

  function SumReal(s: seq<real>): real {
    if s == [] then 0.0 else SumReal(s[..|s| - 1]) + s[|s| - 1]
  }

  lemma Distribute(scale: real, t: real, sum: real, part: real, a: real, b: real)
    requires sum * scale == t * a && part * scale == t * b
    ensures (sum + part) * scale == t * (a + b)
  {
  }

  lemma CancelFactor(x: real, t: real, scale: real, sum: real)
    requires scale > 0.0 && sum == scale && x * scale == t * sum
    ensures x == t
  {
    assert (x - t) * scale == 0.0;
  }

  /** Shares in proportion to the weights sum in proportion to their sum. */
  lemma {:induction false} ProportionalSum(shares: seq<real>, weights: seq<real>, t: real, scale: real)
    requires |shares| == |weights| && forall i :: 0 <= i < |weights| ==> shares[i] * scale == t * Positive(weights[i])
    ensures SumReal(shares) * scale == t * PositiveSum(weights)
  {
    if weights != [] {
      var n := |weights| - 1;
      ProportionalSum(shares[..n], weights[..n], t, scale);
      Distribute(scale, t, SumReal(shares[..n]), shares[n], PositiveSum(weights[..n]), Positive(weights[n]));
    }
  }

  /** As long as some weight is positive, all units are shared out. */
  lemma SharesSum(total: nat, weights: seq<real>)
    requires PositiveSum(weights) > 0.0
    ensures Scale(weights) > 0.0 && SumReal(Shares(total, weights)) == total as real
  {
    var shares := Shares(total, weights);
    forall i | 0 <= i < |weights| ensures shares[i] * Scale(weights) == total as real * Positive(weights[i]) {
      Undivided(total as real, Positive(weights[i]), Scale(weights));
    }
    SharesSumTo(shares, weights, total as real, Scale(weights));
  }

  lemma Undivided(t: real, w: real, scale: real)
    requires scale > 0.0
    ensures t * w / scale * scale == t * w
  {
  }

  lemma SharesSumTo(shares: seq<real>, weights: seq<real>, t: real, scale: real)
    requires scale == PositiveSum(weights) > 0.0 && |shares| == |weights|
    requires forall i :: 0 <= i < |weights| ==> shares[i] * scale == t * Positive(weights[i])
    ensures SumReal(shares) == t
  {
    ProportionalSum(shares, weights, t, scale);
    CancelFactor(SumReal(shares), t, scale, PositiveSum(weights));
  }

  /** The floors sum to at most the shares, and by less than one for each share. */
  lemma {:induction false} FloorsSum(shares: seq<real>)
    ensures Sum(Floors(shares)) as real <= SumReal(shares)
    ensures shares != [] ==> SumReal(shares) < Sum(Floors(shares)) as real + |shares| as real
  {
    if shares != [] {
      var n := |shares| - 1;
      FloorsSum(shares[..n]);
      assert Floors(shares)[..n] == Floors(shares[..n]);
    }
  }

  lemma SharesTotal(total: nat, weights: seq<real>)
    requires weights != [] && PositiveSum(weights) > 0.0
    ensures Scale(weights) > 0.0 && 0 <= Leftover(total, Shares(total, weights)) < |weights|
  {
    SharesSum(total, weights);
    FloorsSum(Shares(total, weights));
  }

  lemma {:induction false} NothingShared(total: nat, weights: seq<real>)
    requires PositiveSum(weights) == 0.0
    ensures Scale(weights) > 0.0 && Sum(Floors(Shares(total, weights))) == 0
  {
    PositiveSumSpec(weights);
    forall i | 0 <= i < |weights| ensures Floors(Shares(total, weights))[i] == 0 {}
    ZeroSum(Floors(Shares(total, weights)));
  }

  lemma {:induction false} ZeroSum(s: seq<int>)
    requires forall i :: 0 <= i < |s| ==> s[i] == 0
    ensures Sum(s) == 0
  {
    if s != [] { ZeroSum(s[..|s| - 1]); }
  }

  lemma ApportionSum(total: nat, shares: seq<real>)
    ensures Sum(Apportion(total, shares)) == Sum(Floors(shares)) + Max(0, Min(Leftover(total, shares), |shares|))
    ensures forall i: nat :: i < |shares| ==> shares[i].Floor <= Apportion(total, shares)[i] <= shares[i].Floor + 1
  {
    RankingSpec(Remainders(shares), |shares|);
    BumpSpec(Floors(shares), Ranking(Remainders(shares), |shares|)[..Max(0, Min(Leftover(total, shares), |shares|))]);
  }

  /** One unit moved. */
  function Moved(result: seq<int>, d: nat, i: nat): seq<int>
    requires d < |result| && i < |result|
  {
    result[d := result[d] - 1][i := result[i] + 1]
  }

  lemma MovedSum(result: seq<int>, d: nat, i: nat)
    requires d < |result| && i < |result| && d != i
    ensures Sum(Moved(result, d, i)) == Sum(result)
  {
    SumUpdate(result, d, result[d] - 1);
    SumUpdate(result[d := result[d] - 1], i, result[i] + 1);
  }

  lemma {:induction false} StealKeepsSum(result: seq<int>, i: nat, m: int)
    requires i < |result|
    ensures Sum(Steal(result, i, m)) == Sum(result)
    decreases m - result[i]
  {
    if result[i] < m && result[Donor(result, |result|)] > m {
      MovedSum(result, Donor(result, |result|), i);
      StealKeepsSum(Moved(result, Donor(result, |result|), i), i, m);
    }
  }

  lemma {:induction false} FillKeepsSum(result: seq<int>, mins: seq<int>, k: nat)
    requires k <= |mins| <= |result|
    ensures Sum(Fill(result, mins, k)) == Sum(result)
  {
    if k > 0 {
      FillKeepsSum(result, mins, k - 1);
      StealKeepsSum(Fill(result, mins, k - 1), k - 1, mins[k - 1]);
    }
  }

  /** The exact-sum guarantee holds if and only if some weight is positive or there are no
      more units than nodes. */
  lemma ExactSumIff(total: nat, weights: seq<real>, mins: seq<int>)
    requires |mins| <= |weights| && weights != []
    ensures Scale(weights) > 0.0
    ensures Sum(Split(total, weights, mins)) == total
            <==> total <= |weights| || exists i :: 0 <= i < |weights| && weights[i] > 0.0
  {
    PositiveSumSpec(weights);
    ScalePositive(weights);
    if total == 0 {
      ZeroSum(Split(total, weights, mins));
    } else {
      var shares := Shares(total, weights);
      ApportionSum(total, shares);
      FillKeepsSum(Apportion(total, shares), mins, |mins|);
      if PositiveSum(weights) > 0.0 { SharesTotal(total, weights); } else { NothingShared(total, weights); }
    }
  }

  /** Without minimums every node gets its share rounded down or up ... */
  lemma WithinQuota(total: nat, weights: seq<real>, i: nat)
    requires total > 0 && i < |weights|
    ensures Scale(weights) > 0.0
    ensures var share := Share(total, weights, i);
            share.Floor <= Split(total, weights, [])[i] <= share.Floor + 1
  {
    ScalePositive(weights);
    ApportionSum(total, Shares(total, weights));
  }

  /** ... and a node that is rounded up has a larger remainder than one that is not, or the
      same and a lower index. */
  lemma LargestRemainderFirst(total: nat, weights: seq<real>, i: nat, j: nat)
    requires total > 0 && i < |weights| && j < |weights|
    ensures Scale(weights) > 0.0
    ensures var a, b := Share(total, weights, i), Share(total, weights, j);
            Split(total, weights, [])[i] == a.Floor + 1 && Split(total, weights, [])[j] == b.Floor
            ==> a - a.Floor as real > b - b.Floor as real || (a - a.Floor as real == b - b.Floor as real && i < j)
  {
    ScalePositive(weights);
    var shares := Shares(total, weights);
    var keys := Remainders(shares);
    var ranking, count := Ranking(keys, |shares|), Max(0, Min(Leftover(total, shares), |shares|));
    RankingSpec(keys, |shares|);
    BumpSpec(Floors(shares), ranking[..count]);
    if i in ranking[..count] && j !in ranking[..count] { TopFirst(ranking, keys, count, i, j); }
  }

  lemma TopFirst(ranking: seq<nat>, keys: seq<real>, count: nat, i: nat, j: nat)
    requires Ranked(ranking, keys) && count <= |ranking|
    requires i in ranking[..count] && j in ranking && j !in ranking[..count]
    ensures i < |keys| && j < |keys| && Outranks(keys, i, j)
  {
    var top := ranking[..count];
    var p :| 0 <= p < count && top[p] == i;
    var q :| 0 <= q < |ranking| && ranking[q] == j;
    assert forall k :: 0 <= k < count ==> top[k] == ranking[k] && top[k] != j;
    assert ranking[p] == i;
  }

  // ---------------------------------------------------------------- in proportion to the weights

  lemma {:induction false} RemainderSum(shares: seq<real>)
    ensures SumReal(Remainders(shares)) == SumReal(shares) - Sum(Floors(shares)) as real
  {
    if shares != [] {
      var n := |shares| - 1;
      RemainderSum(shares[..n]);
      assert Floors(shares)[..n] == Floors(shares[..n]) && Remainders(shares)[..n] == Remainders(shares[..n]);
    }
  }

  lemma {:induction false} SumRealUpdate(s: seq<real>, i: nat, x: real)
    requires i < |s|
    ensures SumReal(s[i := x]) == SumReal(s) - s[i] + x
  {
    var n := |s| - 1;
    if i < n {
      assert s[i := x][..n] == s[..n][i := x];
      SumRealUpdate(s[..n], i, x);
    } else {
      assert s[i := x][..n] == s[..n];
    }
  }

  lemma {:induction false} NothingPositive(keys: seq<real>)
    requires forall i :: 0 <= i < |keys| ==> keys[i] <= 0.0
    ensures SumReal(keys) <= 0.0
  {
    if keys != [] { NothingPositive(keys[..|keys| - 1]); }
  }

  /** Remainders that are positive only at these indices sum to at most their number. */
  lemma {:induction false} SumOfTop(keys: seq<real>, top: seq<nat>)
    requires Distinct(top) && forall k :: 0 <= k < |top| ==> top[k] < |keys|
    requires forall i :: 0 <= i < |keys| ==> keys[i] <= if i in top then 1.0 else 0.0
    ensures SumReal(keys) <= |top| as real
    decreases |top|
  {
    if top == [] {
      NothingPositive(keys);
    } else {
      var n := |top| - 1;
      var fewer := keys[top[n] := 0.0];
      assert top == top[..n] + [top[n]];
      SumOfTop(fewer, top[..n]);
      SumRealUpdate(keys, top[n], 0.0);
    }
  }

  /** Whoever has no remainder is not rounded up: the others' remainders, each below one, could
      not make up the leftover. */
  lemma NoneForNothing(total: nat, shares: seq<real>, p: nat)
    requires SumReal(shares) == total as real
    requires var ranking := Ranking(Remainders(shares), |shares|); p < |ranking| && p < Leftover(total, shares)
    ensures Remainders(shares)[Ranking(Remainders(shares), |shares|)[p]] > 0.0
  {
    var keys := Remainders(shares);
    var ranking := Ranking(keys, |shares|);
    RankingSpec(keys, |shares|);
    RemainderSum(shares);
    if keys[ranking[p]] <= 0.0 {
      forall i | 0 <= i < |keys| && i !in ranking[..p] ensures keys[i] <= 0.0 { RankedAfter(ranking, keys, p, i); }
      SumOfTop(keys, ranking[..p]);
    }
  }

  lemma RankedAfter(ranking: seq<nat>, keys: seq<real>, p: nat, i: nat)
    requires Ranked(ranking, keys) && p < |ranking| && i < |keys| && i in ranking && i !in ranking[..p]
    ensures keys[i] <= keys[ranking[p]]
  {
    var q :| 0 <= q < |ranking| && ranking[q] == i;
    assert forall k :: 0 <= k < p ==> ranking[..p][k] == ranking[k];
  }

  lemma {:induction false} AllPositive(weights: seq<real>)
    requires forall i :: 0 <= i < |weights| ==> weights[i] >= 0.0
    ensures PositiveSum(weights) == SumReal(weights)
  {
    if weights != [] { AllPositive(weights[..|weights| - 1]); }
  }

  /** Each count is less than one unit away from the share. */
  lemma NearShare(total: nat, shares: seq<real>, i: nat)
    requires i < |shares| && SumReal(shares) == total as real
    ensures shares[i] - 1.0 < Apportion(total, shares)[i] as real < shares[i] + 1.0
  {
    var ranking := Ranking(Remainders(shares), |shares|);
    var count := Max(0, Min(Leftover(total, shares), |ranking|));
    RankingSpec(Remainders(shares), |shares|);
    BumpSpec(Floors(shares), ranking[..count]);
    if i in ranking[..count] {
      var p :| 0 <= p < count && ranking[..count][p] == i;
      NoneForNothing(total, shares, p);
    }
  }

  /** `k < t * w / sum + 1` and `k > t * w / sum - 1`, multiplied out. */
  predicate UnderQuota(t: real, w: real, k: real, sum: real) {
    k * sum < t * w + sum
  }

  predicate OverQuota(t: real, w: real, k: real, sum: real) {
    k * sum > t * w - sum
  }

  lemma PositiveProduct(a: real, b: real, scale: real)
    requires scale > 0.0 && a > b
    ensures a * scale > b * scale
  {
    assert (a - b) * scale > 0.0;
  }

  lemma UnderByOne(share: real, count: real, scale: real, t: real, w: real)
    requires scale > 0.0 && share * scale == t * w && count < share + 1.0
    ensures UnderQuota(t, w, count, scale)
  {
    var gap := share + 1.0 - count;
    PositiveProduct(gap, 0.0, scale);
    assert gap * scale == share * scale + scale - count * scale;
  }

  lemma OverByOne(share: real, count: real, scale: real, t: real, w: real)
    requires scale > 0.0 && share * scale == t * w && share - 1.0 < count
    ensures OverQuota(t, w, count, scale)
  {
    var gap := count - share + 1.0;
    PositiveProduct(gap, 0.0, scale);
    assert gap * scale == count * scale - share * scale + scale;
  }

  lemma Divided(t: real, w: real, scale: real) returns (x: real)
    requires scale > 0.0
    ensures x == t * w / scale && x * scale == t * w
  {
    x := t * w / scale;
    Undivided(t, w, scale);
  }

  lemma ShareIs(total: nat, weights: seq<real>, i: nat, t: real, w: real, scale: real) returns (x: real)
    requires i < |weights| && t == total as real && w == Positive(weights[i]) && scale == Scale(weights) > 0.0
    ensures x == Shares(total, weights)[i] && x * scale == t * w
  {
    x := Divided(t, w, scale);
  }

  /** The shares, known only by what they are for. */
  lemma SharesOf(total: nat, weights: seq<real>, i: nat, t: real, w: real, scale: real)
    returns (shares: seq<real>, x: real)
    requires i < |weights| && t == total as real && w == Positive(weights[i]) && scale == PositiveSum(weights) > 0.0
    ensures |shares| == |weights| && Apportion(total, shares) == Apportion(total, Shares(total, weights))
    ensures SumReal(shares) == t && shares[i] == x && x * scale == t * w
  {
    SharesSum(total, weights);
    shares := Shares(total, weights);
    x := ShareIs(total, weights, i, t, w, scale);
  }

  lemma QuotaOf(total: nat, shares: seq<real>, i: nat, x: real, t: real, w: real, scale: real) returns (k: int)
    requires i < |shares| && SumReal(shares) == total as real && shares[i] == x && scale > 0.0 && x * scale == t * w
    ensures k == Apportion(total, shares)[i] && OverQuota(t, w, k as real, scale) && UnderQuota(t, w, k as real, scale)
  {
    NearShare(total, shares, i);
    k := Apportion(total, shares)[i];
    UnderByOne(x, k as real, scale, t, w);
    OverByOne(x, k as real, scale, t, w);
  }

  lemma QuotaOfShares(total: nat, weights: seq<real>, i: nat, t: real, w: real, scale: real) returns (k: int)
    requires i < |weights| && t == total as real && w == Positive(weights[i]) && scale == PositiveSum(weights) > 0.0
    ensures k == Apportion(total, Shares(total, weights))[i]
    ensures OverQuota(t, w, k as real, scale) && UnderQuota(t, w, k as real, scale)
  {
    var shares, x := SharesOf(total, weights, i, t, w, scale);
    k := QuotaOf(total, shares, i, x, t, w, scale);
  }

  lemma NoUnits(w: real, sum: real)
    requires sum > 0.0
    ensures OverQuota(0.0, w, 0.0, sum) && UnderQuota(0.0, w, 0.0, sum)
  {
  }

  lemma QuotaOfSplit(total: nat, weights: seq<real>, i: nat, t: real, w: real, sum: real) returns (k: int)
    requires i < |weights| && t == total as real && w == Positive(weights[i]) && sum == PositiveSum(weights) > 0.0
    ensures k == Split(total, weights, [])[i]
    ensures OverQuota(t, w, k as real, sum) && UnderQuota(t, w, k as real, sum)
  {
    if total == 0 {
      NoUnits(w, sum);
      k := 0;
    } else {
      k := QuotaOfShares(total, weights, i, t, w, sum);
    }
  }

  /** The quota: without minimums what a node gets is less than one unit away from the exact
      proportion `total * weight / sum of the weights`. */
  lemma InProportion(total: nat, weights: seq<real>, i: nat, t: real, w: real, sum: real) returns (k: int)
    requires i < |weights| && t == total as real && w == weights[i] && sum == SumReal(weights) > 0.0
    requires forall j :: 0 <= j < |weights| ==> weights[j] >= 0.0
    ensures Scale(weights) > 0.0 && k == Split(total, weights, [])[i]
    ensures t * w - sum < k as real * sum < t * w + sum
  {
    AllPositive(weights);
    k := QuotaOfSplit(total, weights, i, t, w, sum);
  }

  function NoNegatives(weights: seq<real>): seq<real> {
    seq(|weights|, i requires 0 <= i < |weights| => if weights[i] < 0.0 then 0.0 else weights[i])
  }

  lemma {:induction false} SameSum(weights: seq<real>)
    ensures PositiveSum(NoNegatives(weights)) == PositiveSum(weights)
  {
    if weights != [] {
      SameSum(weights[..|weights| - 1]);
      assert NoNegatives(weights)[..|weights| - 1] == NoNegatives(weights[..|weights| - 1]);
    }
  }

  lemma SameShares(total: nat, weights: seq<real>)
    requires Scale(weights) == Scale(NoNegatives(weights)) > 0.0
    ensures Shares(total, weights) == Shares(total, NoNegatives(weights))
  {
    forall i | 0 <= i < |weights| ensures Shares(total, weights)[i] == Shares(total, NoNegatives(weights))[i] {
      assert Positive(weights[i]) == Positive(NoNegatives(weights)[i]);
    }
  }

  /** A negative weight counts as none. */
  lemma NegativeIsNone(total: int, weights: seq<real>, mins: seq<int>)
    requires |mins| <= |weights|
    ensures Scale(weights) > 0.0 && Scale(NoNegatives(weights)) > 0.0
    ensures Split(total, weights, mins) == Split(total, NoNegatives(weights), mins)
  {
    ScalePositive(weights);
    SameSum(weights);
    if total > 0 { SameShares(total, weights); }
  }

  // ---------------------------------------------------------------- uniform minimums

  lemma {:induction false} SumBound(s: seq<int>, m: int)
    ensures (forall i :: 0 <= i < |s| ==> s[i] <= m) ==> Sum(s) <= |s| * m
    ensures (forall i :: 0 <= i < |s| ==> s[i] >= m) ==> Sum(s) >= |s| * m
  {
    if s != [] {
      var n := |s| - 1;
      SumBound(s[..n], m);
      assert |s| * m == n * m + m;
    }
  }

  /** Enough units and one node short: some node has more than the minimum. */
  lemma SomeoneCanGive(s: seq<int>, i: nat, m: int)
    requires i < |s| && s[i] < m && Sum(s) >= |s| * m
    ensures s[Donor(s, |s|)] > m
  {
    if s[Donor(s, |s|)] <= m {
      SumUpdate(s, i, m);
      SumBound(s[i := m], m);
      assert false;
    }
  }

  /** With enough units for everyone to have `top`, a node that asks for no more than that
      gets it, and takes nobody below it. */
  lemma {:induction false} StealReaches(result: seq<int>, i: nat, m: int, top: int)
    requires i < |result| && m <= top && Sum(result) >= |result| * top
    ensures Steal(result, i, m)[i] >= m
    ensures forall j :: 0 <= j < |result| ==> Steal(result, i, m)[j] >= Min(result[j], top)
    decreases m - result[i]
  {
    if result[i] < m {
      SomeoneCanGive(result, i, top);
      MovedSum(result, Donor(result, |result|), i);
      StealReaches(Moved(result, Donor(result, |result|), i), i, m, top);
    }
  }

  predicate Met(result: seq<int>, mins: seq<int>, k: nat)
    requires k <= |mins| <= |result|
  {
    forall j :: 0 <= j < k ==> result[j] >= mins[j]
  }

  lemma {:induction false} FillReaches(result: seq<int>, mins: seq<int>, top: int, k: nat)
    requires k <= |mins| <= |result| && Sum(result) >= |result| * top && forall j :: 0 <= j < |mins| ==> mins[j] <= top
    ensures Met(Fill(result, mins, k), mins, k)
  {
    if k > 0 {
      FillReaches(result, mins, top, k - 1);
      FillKeepsSum(result, mins, k - 1);
      StealReaches(Fill(result, mins, k - 1), k - 1, mins[k - 1], top);
    }
  }

  /** A minimum that is the same for all nodes is met if and only if there are enough
      units for it. */
  lemma UniformMinimumIff(result: seq<int>, m: int)
    ensures var mins := seq(|result|, _ => m);
            Met(Fill(result, mins, |mins|), mins, |mins|) <==> Sum(result) >= |result| * m
  {
    var mins := seq(|result|, _ => m);
    FillKeepsSum(result, mins, |mins|);
    SumBound(Fill(result, mins, |mins|), m);
    if Sum(result) >= |result| * m { FillReaches(result, mins, m, |mins|); }
  }

  /** Any minimums, different or not, are met when there are enough units for everyone to have
      the largest of them. */
  lemma EnoughForTheLargest(total: int, weights: seq<real>, mins: seq<int>, top: int)
    requires |mins| <= |weights| && forall j :: 0 <= j < |mins| ==> mins[j] <= top
    requires total >= |weights| * top
    requires total <= |weights| || exists i :: 0 <= i < |weights| && weights[i] > 0.0
    ensures Scale(weights) > 0.0 && Met(Split(total, weights, mins), mins, |mins|)
  {
    ScalePositive(weights);
    if weights != [] && total > 0 {
      var dealt := Apportion(total, Shares(total, weights));
      ExactSumIff(total, weights, mins);
      FillKeepsSum(dealt, mins, |mins|);
      FillReaches(dealt, mins, top, |mins|);
    } else if weights != [] {
      NoneWanted(|weights|, top, total);
    }
  }

  lemma NoneWanted(n: nat, top: int, total: int)
    requires n > 0 && n * top <= total <= 0
    ensures top <= 0
  {
  }

  // ---------------------------------------------------------------- different minimums

  /** Different minimums can be missed although there are units to meet them: the first
      node, which has none to spare, is asked again and again instead of the third. */
  lemma MinimumsCanBeMissed()
    ensures Scale([1.0, 0.0, 1.0]) > 0.0 && Sum([3, 3, 0]) == 6
    ensures Split(6, [1.0, 0.0, 1.0], [3, 3, 0]) == [3, 0, 3]
  {
    TwoWeights();
    DealtSix();
    FilledSix();
    SumOfThree(3, 3, 0);
  }

  lemma TwoWeights()
    ensures Scale([1.0, 0.0, 1.0]) == 2.0
  {
    var weights := [1.0, 0.0, 1.0];
    assert weights[..2] == [1.0, 0.0] && [1.0, 0.0][..1] == [1.0] && [1.0][..0] == [];
  }

  lemma SumOfThree(a: int, b: int, c: int)
    ensures Sum([a, b, c]) == a + b + c
  {
    assert [a, b, c][..2] == [a, b] && [a, b][..1] == [a] && [a][..0] == [];
    assert Sum([a]) == a && Sum([a, b]) == a + b;
  }

  lemma DealtSix()
    requires Scale([1.0, 0.0, 1.0]) == 2.0
    ensures Apportion(6, Shares(6, [1.0, 0.0, 1.0])) == [3, 0, 3]
  {
    var shares := Shares(6, [1.0, 0.0, 1.0]);
    assert shares == [3.0, 0.0, 3.0];
    assert Floors(shares) == [3, 0, 3];
    SumOfThree(3, 0, 3);
    assert Leftover(6, shares) == 0;
    assert Ranking(Remainders(shares), 3)[..0] == [];
  }

  lemma FilledSix()
    ensures Fill([3, 0, 3], [3, 3, 0], 3) == [3, 0, 3]
  {
    var r, mins := [3, 0, 3], [3, 3, 0];
    assert Donor(r, 1) == 0 && Donor(r, 2) == 0 && Donor(r, 3) == 0;
    assert Fill(r, mins, 1) == r;
    assert Fill(r, mins, 2) == r;
  }

  /** What node j keeps: p, or for the nodes before k one less, since they are asked first among
      equals. */
  function Level(k: nat, p: int, j: nat): int {
    if j < k then p - 1 else p
  }

  /** The units of the first n nodes above those levels. */
  function Above(s: seq<int>, k: nat, p: int, n: nat): nat
    requires n <= |s|
  {
    if n == 0 then 0 else Above(s, k, p, n - 1) + Max(s[n - 1] - Level(k, p, n - 1), 0)
  }

  lemma {:induction false} AboveUpdate(s: seq<int>, k: nat, p: int, n: nat, i: nat, x: int)
    requires n <= |s| && i < |s|
    ensures Above(s[i := x], k, p, n)
            == Above(s, k, p, n) + if i < n then Max(x - Level(k, p, i), 0) - Max(s[i] - Level(k, p, i), 0) else 0
  {
    if n > 0 { AboveUpdate(s, k, p, n - 1, i, x); }
  }

  lemma {:induction false} NothingAbove(s: seq<int>, k: nat, p: int, n: nat)
    requires n <= |s| && forall j :: 0 <= j < n ==> s[j] <= Level(k, p, j)
    ensures Above(s, k, p, n) == 0
  {
    if n > 0 { NothingAbove(s, k, p, n - 1); }
  }

  /** How many units can be taken before node k, which has at least p, goes below p. */
  function Spare(result: seq<int>, k: nat, p: int): nat {
    Above(result, k, p, |result|)
  }

  /** All the units above m. */
  function Over(result: seq<int>, m: int): nat {
    Spare(result, 0, m)
  }

  /** How many units node i takes when it asks for m: what it lacks, as far as others have more. */
  function Taken(result: seq<int>, i: nat, m: int): nat
    requires i < |result|
  {
    Min(Max(m - result[i], 0), Over(result, m))
  }

  /** Moving a unit from above the levels to a node below them leaves one unit less above. */
  lemma MovedSpare(result: seq<int>, d: nat, i: nat, k: nat, p: int)
    requires d < |result| && i < |result| && d != i
    requires result[i] < Level(k, p, i) && result[d] > Level(k, p, d)
    ensures Spare(Moved(result, d, i), k, p) == Spare(result, k, p) - 1
  {
    AboveUpdate(result, k, p, |result|, d, result[d] - 1);
    AboveUpdate(result[d := result[d] - 1], k, p, |result|, i, result[i] + 1);
  }

  /** One step of the loop, which goes on only while somebody has more than m. */
  lemma StealOnce(result: seq<int>, d: nat, i: nat, m: int)
    requires i < |result| && d == Donor(result, |result|) && result[i] < m < result[d]
    ensures Steal(result, i, m) == Steal(Moved(result, d, i), i, m)
    ensures Taken(Moved(result, d, i), i, m) == Taken(result, i, m) - 1
  {
    MovedSpare(result, d, i, 0, m);
  }

  /** Node i takes exactly that much, so it meets its minimum if and only if the others have
      enough above it. */
  lemma {:induction false} StealMeets(result: seq<int>, i: nat, m: int)
    requires i < |result|
    ensures Steal(result, i, m)[i] == result[i] + Taken(result, i, m)
    ensures Steal(result, i, m)[i] >= m <==> Over(result, m) >= m - result[i]
    decreases m - result[i]
  {
    if result[i] < m {
      var d := Donor(result, |result|);
      if result[d] <= m {
        NothingAbove(result, 0, m, |result|);
      } else {
        StealOnce(result, d, i, m);
        StealMeets(Moved(result, d, i), i, m);
      }
    }
  }

  lemma {:induction false} StealOnlyTakes(result: seq<int>, i: nat, k: nat, m: int)
    requires i < |result| && k < |result| && i != k
    ensures Steal(result, i, m)[k] <= result[k] && Steal(result, i, m)[k] >= Min(result[k], m)
    decreases m - result[i]
  {
    if result[i] < m && result[Donor(result, |result|)] > m {
      StealOnlyTakes(Moved(result, Donor(result, |result|), i), i, k, m);
    }
  }

  /** The donor is node k itself, which has just its minimum: it goes below, with nothing to
      spare. */
  lemma GoesBelow(result: seq<int>, i: nat, k: nat, m: int, p: int)
    requires i < |result| && k == Donor(result, |result|) && i != k && result[i] < m < p == result[k]
    ensures Steal(result, i, m)[k] < p && Taken(result, i, m) > 0 && Spare(result, k, p) == 0
  {
    NothingAbove(result, k, p, |result|);
    StealOnce(result, k, i, m);
    StealOnlyTakes(Moved(result, k, i), i, k, m);
  }

  /** Another node that has its minimum p keeps it if and only if p is no more than what node i
      asks for, or node i takes no more than what can be spared. */
  lemma {:induction false} StealKeeps(result: seq<int>, i: nat, k: nat, m: int, p: int)
    requires i < |result| && k < |result| && i != k && result[k] >= p
    ensures Steal(result, i, m)[k] >= p <==> p <= m || Taken(result, i, m) <= Spare(result, k, p)
    decreases m - result[i]
  {
    var d := Donor(result, |result|);
    if p <= m {
      StealOnlyTakes(result, i, k, m);
    } else if result[i] < m {
      if d == k && result[k] == p {
        GoesBelow(result, i, k, m, p);
      } else {
        StealOnce(result, d, i, m);
        MovedSpare(result, d, i, k, p);
        StealKeeps(Moved(result, d, i), i, k, m, p);
      }
    }
  }

  /** Step i of the loop over the minimums leaves nobody short: node i can get what it lacks,
      and every earlier node asks for no more than it or can spare what it takes. */
  predicate StepMeets(result: seq<int>, mins: seq<int>, i: nat)
    requires i < |mins| <= |result|
  {
    && Over(result, mins[i]) >= mins[i] - result[i]
    && forall k :: 0 <= k < i ==> mins[k] <= mins[i] || Taken(result, i, mins[i]) <= Spare(result, k, mins[k])
  }

  lemma StepMeetsIff(result: seq<int>, mins: seq<int>, i: nat)
    requires i < |mins| <= |result| && Met(result, mins, i)
    ensures Met(Steal(result, i, mins[i]), mins, i + 1) <==> StepMeets(result, mins, i)
  {
    var next := Steal(result, i, mins[i]);
    StealMeets(result, i, mins[i]);
    forall k | 0 <= k < i
      ensures next[k] >= mins[k] <==> mins[k] <= mins[i] || Taken(result, i, mins[i]) <= Spare(result, k, mins[k])
    {
      StealKeeps(result, i, k, mins[i], mins[k]);
    }
  }

  /** A node that is short after its own step stays short. */
  lemma ShortStays(result: seq<int>, mins: seq<int>, i: nat)
    requires i < |mins| <= |result| && !Met(result, mins, i)
    ensures !Met(Steal(result, i, mins[i]), mins, i + 1)
  {
    var k :| 0 <= k < i && result[k] < mins[k];
    StealOnlyTakes(result, i, k, mins[i]);
  }

  ghost predicate StepsMeet(result: seq<int>, mins: seq<int>, n: nat)
    requires n <= |mins| <= |result|
  {
    forall i :: 0 <= i < n ==> StepMeets(Fill(result, mins, i), mins, i)
  }

  lemma FillMeetsNext(result: seq<int>, mins: seq<int>, n: nat)
    requires n < |mins| <= |result| && (Met(Fill(result, mins, n), mins, n) <==> StepsMeet(result, mins, n))
    ensures Met(Fill(result, mins, n + 1), mins, n + 1) <==> StepsMeet(result, mins, n + 1)
  {
    var before := Fill(result, mins, n);
    assert Fill(result, mins, n + 1) == Steal(before, n, mins[n]);
    assert StepsMeet(result, mins, n + 1) <==> StepsMeet(result, mins, n) && StepMeets(before, mins, n);
    if Met(before, mins, n) { StepMeetsIff(before, mins, n); } else { ShortStays(before, mins, n); }
  }

  lemma {:induction false} FillMeetsIff(result: seq<int>, mins: seq<int>, n: nat)
    requires n <= |mins| <= |result|
    ensures Met(Fill(result, mins, n), mins, n) <==> StepsMeet(result, mins, n)
  {
    if n == 0 {
      assert Met(Fill(result, mins, 0), mins, 0);
    } else {
      FillMeetsIff(result, mins, n - 1);
      FillMeetsNext(result, mins, n - 1);
    }
  }

  /** The exact condition for any minimums: all are met if and only if no step of the loop
      leaves anybody short. */
  lemma MinimumsIff(total: int, weights: seq<real>, mins: seq<int>)
    requires |mins| <= |weights| && weights != [] && total > 0
    ensures Scale(weights) > 0.0
    ensures Met(Split(total, weights, mins), mins, |mins|)
            <==> StepsMeet(Apportion(total, Shares(total, weights)), mins, |mins|)
  {
    ScalePositive(weights);
    FillMeetsIff(Apportion(total, Shares(total, weights)), mins, |mins|);
  }

  // ---------------------------------------------------------------- pull counts

  /** `[w or 0.01 for w in weights]`. */
  function Known(weights: seq<real>): seq<real> {
    seq(|weights|, i requires 0 <= i < |weights| => if weights[i] == 0.0 then 0.01 else weights[i])
  }

  /** `_adaptive_pull_count`: `weights` are the measured throughputs of all participants, 0
      for one without history, and `me` is this one's place. */
  method AdaptivePullCount(weighted: bool, weights: seq<real>, me: nat) returns (k: int)
    requires me < |weights| && forall i :: 0 <= i < |weights| ==> weights[i] >= 0.0
    ensures 1 <= k <= |weights| + 1 && Scale(Known(weights)) > 0.0
    ensures k == if !weighted || (forall i :: 0 <= i < |weights| ==> weights[i] == 0.0) then 1
                 else Split(2 * |weights|, Known(weights), seq(|weights|, _ => 1))[me]
  {
    PullCounts(weights, me);
    if !weighted || forall i :: 0 <= i < |weights| ==> weights[i] == 0.0 { return 1; }
    var n := |weights|;
    var total := Max(1, n * 2);
    assert total == 2 * n;
    var counts := ProportionalSplit(total, Known(weights), seq(n, _ => 1));
    k := Max(1, counts[me]);
  }

  lemma {:induction false} SomePositive(weights: seq<real>)
    requires weights != [] && forall j :: 0 <= j < |weights| ==> weights[j] > 0.0
    ensures SumReal(weights) > 0.0
  {
    if |weights| > 1 { SomePositive(weights[..|weights| - 1]); }
  }

  /** Asking for one each raises nobody above what was dealt, except to one. */
  lemma {:induction false} FillRaisesToOne(result: seq<int>, n: nat, k: nat, j: nat)
    requires k <= n <= |result| && j < |result|
    ensures Fill(result, seq(n, _ => 1), k)[j] <= Max(result[j], 1)
  {
    if k > 0 {
      FillRaisesToOne(result, n, k - 1, j);
      var before := Fill(result, seq(n, _ => 1), k - 1);
      if j == k - 1 { StealMeets(before, j, 1); } else { StealOnlyTakes(before, k - 1, j, 1); }
    }
  }

  /** A participant pulls one chunk, or less than one more than its exact share. */
  lemma PullQuota(weights: seq<real>, me: nat)
    requires me < |weights| && forall i :: 0 <= i < |weights| ==> weights[i] >= 0.0
    ensures Scale(Known(weights)) > 0.0 && SumReal(Known(weights)) > 0.0
    ensures forall i :: 0 <= i < |weights| ==> Known(weights)[i] == if weights[i] == 0.0 then 0.01 else weights[i]
    ensures var k := Split(2 * |weights|, Known(weights), seq(|weights|, _ => 1))[me];
            k <= 1 || UnderQuota((2 * |weights|) as real, Known(weights)[me], k as real, SumReal(Known(weights)))
  {
    var n, known := |weights|, Known(weights);
    SomePositive(known);
    AllPositive(known);
    var k := QuotaOfShares(2 * n, known, me, (2 * n) as real, known[me], SumReal(known));
    var dealt := Apportion(2 * n, Shares(2 * n, known));
    FillRaisesToOne(dealt, n, n, me);
    FewerIsUnder((2 * n) as real, known[me], Split(2 * n, known, seq(n, _ => 1))[me], k, SumReal(known));
  }

  lemma FewerIsUnder(t: real, w: real, k: int, dealt: int, sum: real)
    requires sum > 0.0 && k <= Max(dealt, 1) && UnderQuota(t, w, dealt as real, sum)
    ensures k <= 1 || UnderQuota(t, w, k as real, sum)
  {
    if 1 < k < dealt { PositiveProduct(dealt as real, k as real, sum); }
  }

  /** Every participant is dealt at least one chunk, and all together exactly two for each. */
  lemma PullCounts(weights: seq<real>, me: nat)
    requires me < |weights| && forall i :: 0 <= i < |weights| ==> weights[i] >= 0.0
    ensures Scale(Known(weights)) > 0.0
    ensures var counts := Split(2 * |weights|, Known(weights), seq(|weights|, _ => 1));
            && |counts| == |weights| && Sum(counts) == 2 * |weights|
            && (forall j :: 0 <= j < |weights| ==> counts[j] >= 1)
            && counts[me] <= |weights| + 1
  {
    var n, known, ones := |weights|, Known(weights), seq(|weights|, _ => 1);
    assert known[0] > 0.0;
    ExactSumIff(2 * n, known, ones);
    var dealt := Apportion(2 * n, Shares(2 * n, known));
    FillKeepsSum(dealt, ones, n);
    UniformMinimumIff(dealt, 1);
    var counts := Fill(dealt, ones, n);
    SumUpdate(counts, me, 1);
    SumBound(counts[me := 1], 1);
  }
}
