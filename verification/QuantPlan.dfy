/** The greedy quantisation budget of gb_gguf_plan.py.  The source's floats are modelled
    by real numbers, so the results are about the algorithm and not about rounding. */
module QuantPlan {
  import opened Basics

  const GIB: real := 1073741824.0
  const SLACK: real := 0.000000001

  /** The bytes-per-element table, in ladder order: from the most to the least precise.
      It is not monotone: q4_1 is larger than q4_k before it. */
  const LADDER: seq<string> := [
    "q8_0", "q6_k", "q5_k", "q5_1", "q5_0", "q4_k", "q4_1", "q4_0",
    "iq4_nl", "iq4_xs", "q3_k", "iq3_s", "iq3_xxs", "q2_k", "iq2_s", "iq2_xs", "iq2_xxs"]

  /** `_BYTES_PER_ELEM_GGUF` of the i-th ladder type. */
  function SizeAt(i: nat): real {
    if i == 0 then 1.0625       // q8_0
    else if i == 1 then 0.820   // q6_k
    else if i == 2 then 0.6875  // q5_k
    else if i == 3 then 0.6875  // q5_1
    else if i == 4 then 0.625   // q5_0
    else if i == 5 then 0.5625  // q4_k
    else if i == 6 then 0.625   // q4_1
    else if i == 7 then 0.5625  // q4_0
    else if i == 8 then 0.5625  // iq4_nl
    else if i == 9 then 0.535   // iq4_xs
    else if i == 10 then 0.4375 // q3_k
    else if i == 11 then 0.4375 // iq3_s
    else if i == 12 then 0.343  // iq3_xxs
    else if i == 13 then 0.328  // q2_k
    else if i == 14 then 0.281  // iq2_s
    else if i == 15 then 0.266  // iq2_xs
    else 0.258                  // iq2_xxs
  }

  const SIZES: seq<real> := seq(17, i requires 0 <= i < 17 => SizeAt(i))

  const PRIORITY: seq<string> := ["ffn", "attn", "output", "embed", "other"]

  /** A ladder by its sizes; the first is the source type. */
  predicate IsLadder(sizes: seq<real>) {
    sizes != [] && forall i :: 0 <= i < |sizes| ==> sizes[i] > 0.0
  }

  /** `_scale`. */
  function Scale(sizes: seq<real>, i: nat): real
    requires IsLadder(sizes) && i < |sizes|
  {
    sizes[i] / sizes[0]
  }

  /** The size of a role of `src` GiB at ladder type i. */
  function Candidate(sizes: seq<real>, src: real, i: nat): real
    requires IsLadder(sizes) && i < |sizes|
  {
    src * Scale(sizes, i)
  }

  function MaxCompressed(sizes: seq<real>, src: real): real
    requires IsLadder(sizes)
  {
    Candidate(sizes, src, |sizes| - 1)
  }

  function Target(sizes: seq<real>, src: real, need: real): real
    requires IsLadder(sizes)
  {
    src - MinReal(need, src - MaxCompressed(sizes, src))
  }

  /** The first ladder index from i on whose size meets the target, else the last. */
  function FirstFit(sizes: seq<real>, src: real, target: real, i: nat): nat
    requires IsLadder(sizes) && i <= |sizes|
    ensures FirstFit(sizes, src, target, i) < |sizes|
    decreases |sizes| - i
  {
    if i == |sizes| then |sizes| - 1
    else if Candidate(sizes, src, i) <= target + SLACK then i
    else FirstFit(sizes, src, target, i + 1)
  }

  function Choose(sizes: seq<real>, src: real, need: real): nat
    requires IsLadder(sizes)
    ensures Choose(sizes, src, need) < |sizes|
  {
    FirstFit(sizes, src, Target(sizes, src, need), 0)
  }

  function ChosenSize(sizes: seq<real>, src: real, need: real): real
    requires IsLadder(sizes)
  {
    Candidate(sizes, src, Choose(sizes, src, need))
  }

  /** `savings_needed` after a role. */
  function Left(sizes: seq<real>, src: real, need: real): real
    requires IsLadder(sizes)
  {
    MaxReal(0.0, need - (src - ChosenSize(sizes, src, need)))
  }

  /** The ladder index of each role in priority order. */
  function Walk(sizes: seq<real>, srcs: seq<real>, need: real): seq<nat>
    requires IsLadder(sizes)
  {
    if srcs == [] then []
    else [Choose(sizes, srcs[0], need)] + Walk(sizes, srcs[1..], Left(sizes, srcs[0], need))
  }

  /** What is still to be saved after all roles. */
  function Unmet(sizes: seq<real>, srcs: seq<real>, need: real): real
    requires IsLadder(sizes)
  {
    if srcs == [] then need else Unmet(sizes, srcs[1..], Left(sizes, srcs[0], need))
  }

  /** The size of the compressible roles under a plan. */
  function Planned(sizes: seq<real>, srcs: seq<real>, need: real): real
    requires IsLadder(sizes)
  {
    if srcs == [] then 0.0
    else ChosenSize(sizes, srcs[0], need) + Planned(sizes, srcs[1..], Left(sizes, srcs[0], need))
  }

  function Sum(s: seq<real>): real {
    if s == [] then 0.0 else s[0] + Sum(s[1..])
  }

  /** `max(0, total - budget)`. */
  function Need(fixed: real, srcs: seq<real>, budget: int): real {
    MaxReal(0.0, fixed + Sum(srcs) - budget as real / GIB)
  }

  /** `int(sum(role_bytes.values()) * 2 ** 30)`. */
  function EstimatedBytes(sizes: seq<real>, fixed: real, srcs: seq<real>, budget: int): int
    requires IsLadder(sizes)
  {
    ((fixed + Planned(sizes, srcs, Need(fixed, srcs, budget))) * GIB).Floor
  }

  predicate Fits(sizes: seq<real>, fixed: real, srcs: seq<real>, budget: int)
    requires IsLadder(sizes)
  {
    EstimatedBytes(sizes, fixed, srcs, budget) <= budget
  }

  // ---------------------------------------------------------------- first fit

  lemma {:induction false} FirstFitSpec(sizes: seq<real>, src: real, target: real, i: nat)
    requires IsLadder(sizes) && i <= |sizes|
    ensures var r := FirstFit(sizes, src, target, i);
            && (forall h :: i <= h < r ==> Candidate(sizes, src, h) > target + SLACK)
            && (Candidate(sizes, src, r) <= target + SLACK
                || (r == |sizes| - 1 && forall h :: i <= h < |sizes| ==> Candidate(sizes, src, h) > target + SLACK))
    decreases |sizes| - i
  {
    if i < |sizes| && Candidate(sizes, src, i) > target + SLACK { FirstFitSpec(sizes, src, target, i + 1); }
  }

  /** Each index is the first that meets its target. */
  lemma ChooseSpec(sizes: seq<real>, src: real, need: real)
    requires IsLadder(sizes)
    ensures forall h :: 0 <= h < Choose(sizes, src, need) ==>
              Candidate(sizes, src, h) > Target(sizes, src, need) + SLACK
    ensures ChosenSize(sizes, src, need) <= Target(sizes, src, need) + SLACK
  {
    var target := Target(sizes, src, need);
    FirstFitSpec(sizes, src, target, 0);
    assert MaxCompressed(sizes, src) <= target;
  }

  lemma GoalIs(sizes: seq<real>, src: real, need: real, last: real)
    requires IsLadder(sizes) && last == src * (sizes[|sizes| - 1] / sizes[0])
    ensures Target(sizes, src, need) == if need <= src - last then src - need else last
  {
  }

  /** With the arithmetic written out: a role goes to the first ladder type whose size saves all
      that is needed or, if none does, is that of the last type, up to a slack of 1e-9 GiB. */
  lemma ChooseWrittenOut(sizes: seq<real>, src: real, need: real, last: real, goal: real)
    requires IsLadder(sizes) && last == src * (sizes[|sizes| - 1] / sizes[0])
    requires goal == if need <= src - last then src - need else last
    ensures src * (sizes[Choose(sizes, src, need)] / sizes[0]) <= goal + 0.000000001
    ensures forall h :: 0 <= h < Choose(sizes, src, need) ==> src * (sizes[h] / sizes[0]) > goal + 0.000000001
  {
    GoalIs(sizes, src, need, last);
    ChooseSpec(sizes, src, need);
    forall h | 0 <= h < Choose(sizes, src, need) ensures src * (sizes[h] / sizes[0]) > goal + SLACK {
      assert Candidate(sizes, src, h) > goal + SLACK;
    }
  }

  lemma SourceTypeKeepsSize(sizes: seq<real>, src: real)
    requires IsLadder(sizes)
    ensures Candidate(sizes, src, 0) == src
  {
  }

  /** A need within the slack touches nothing. */
  lemma SmallNeedKeeps(sizes: seq<real>, src: real, need: real)
    requires IsLadder(sizes) && 0.0 <= need <= SLACK
    ensures Choose(sizes, src, need) == 0 && Left(sizes, src, need) == need
  {
    SourceTypeKeepsSize(sizes, src);
    assert src <= Target(sizes, src, need) + SLACK;
  }

  /** A role that can meet the need leaves at most the slack. */
  lemma MetNeed(sizes: seq<real>, src: real, need: real)
    requires IsLadder(sizes) && need <= src - MaxCompressed(sizes, src)
    ensures 0.0 <= Left(sizes, src, need) <= SLACK
  {
    ChooseSpec(sizes, src, need);
    assert Target(sizes, src, need) == src - need;
  }

  // ---------------------------------------------------------------- budget monotonicity

  /** More is needed under the first budget, or nothing more is needed under the second. */
  predicate NeedsMore(tight: real, loose: real) {
    0.0 <= tight && 0.0 <= loose && (loose <= tight || loose <= SLACK)
  }

  lemma LowerTargetGoesFurther(sizes: seq<real>, src: real, low: real, high: real)
    requires IsLadder(sizes) && low <= high
    ensures FirstFit(sizes, src, low, 0) >= FirstFit(sizes, src, high, 0)
  {
    FirstFitSpec(sizes, src, low, 0);
    FirstFitSpec(sizes, src, high, 0);
  }

  lemma NeedsMoreStep(sizes: seq<real>, src: real, tight: real, loose: real)
    requires IsLadder(sizes) && NeedsMore(tight, loose)
    ensures Choose(sizes, src, tight) >= Choose(sizes, src, loose)
    ensures NeedsMore(Left(sizes, src, tight), Left(sizes, src, loose))
  {
    if loose <= SLACK {
      SmallNeedKeeps(sizes, src, loose);
    } else {
      LowerTargetGoesFurther(sizes, src, Target(sizes, src, tight), Target(sizes, src, loose));
      if loose <= src - MaxCompressed(sizes, src) { MetNeed(sizes, src, loose); }
      else { assert Target(sizes, src, tight) == Target(sizes, src, loose); }
    }
  }

  lemma {:induction false} WalkMonotone(sizes: seq<real>, srcs: seq<real>, tight: real, loose: real)
    requires IsLadder(sizes) && NeedsMore(tight, loose)
    ensures |Walk(sizes, srcs, tight)| == |Walk(sizes, srcs, loose)| == |srcs|
    ensures forall k :: 0 <= k < |srcs| ==> Walk(sizes, srcs, tight)[k] >= Walk(sizes, srcs, loose)[k]
  {
    if srcs != [] {
      NeedsMoreStep(sizes, srcs[0], tight, loose);
      WalkMonotone(sizes, srcs[1..], Left(sizes, srcs[0], tight), Left(sizes, srcs[0], loose));
    }
  }

  /** Raising the budget never pushes any role further down the ladder, whatever the
      ladder's sizes. */
  lemma RaisingBudgetNeverHurts(sizes: seq<real>, fixed: real, srcs: seq<real>, budget: int, more: int)
    requires IsLadder(sizes) && budget <= more
    ensures var low, high := Walk(sizes, srcs, Need(fixed, srcs, budget)), Walk(sizes, srcs, Need(fixed, srcs, more));
            |low| == |high| == |srcs| && forall k :: 0 <= k < |srcs| ==> high[k] <= low[k]
  {
    assert budget as real / GIB <= more as real / GIB;
    WalkMonotone(sizes, srcs, Need(fixed, srcs, budget), Need(fixed, srcs, more));
  }

  // ---------------------------------------------------------------- completeness

  lemma LeftTracksExcess(sizes: seq<real>, src: real, excess: real)
    requires IsLadder(sizes)
    ensures Left(sizes, src, MaxReal(0.0, excess))
            == MaxReal(0.0, excess - (src - ChosenSize(sizes, src, MaxReal(0.0, excess))))
  {
    if excess < 0.0 {
      SmallNeedKeeps(sizes, src, 0.0);
      SourceTypeKeepsSize(sizes, src);
    }
  }

  /** What is left to save is always the excess over the budget, or nothing. */
  lemma {:induction false} UnmetIsExcess(sizes: seq<real>, srcs: seq<real>, excess: real)
    requires IsLadder(sizes)
    ensures Unmet(sizes, srcs, MaxReal(0.0, excess))
            == MaxReal(0.0, excess - (Sum(srcs) - Planned(sizes, srcs, MaxReal(0.0, excess))))
  {
    if srcs != [] {
      var need := MaxReal(0.0, excess);
      LeftTracksExcess(sizes, srcs[0], excess);
      UnmetIsExcess(sizes, srcs[1..], excess - (srcs[0] - ChosenSize(sizes, srcs[0], need)));
    }
  }

  /** The exact condition: the plan fits its budget if and only if less than one byte is
      left to save after the last role. */
  lemma FitsIffUnderOneByte(sizes: seq<real>, fixed: real, srcs: seq<real>, budget: int)
    requires IsLadder(sizes)
    ensures Fits(sizes, fixed, srcs, budget) <==> Unmet(sizes, srcs, Need(fixed, srcs, budget)) * GIB < 1.0
  {
    var limit := budget as real / GIB;
    var excess := fixed + Sum(srcs) - limit;
    UnmetIsExcess(sizes, srcs, excess);
    var total := fixed + Planned(sizes, srcs, Need(fixed, srcs, budget));
    assert Unmet(sizes, srcs, Need(fixed, srcs, budget)) == MaxReal(0.0, total - limit);
    assert (total - limit) * GIB == total * GIB - budget as real;
  }

  /** The sum of what each role could give up at most. */
  function Capacity(sizes: seq<real>, srcs: seq<real>): real
    requires IsLadder(sizes)
  {
    if srcs == [] then 0.0 else srcs[0] - MaxCompressed(sizes, srcs[0]) + Capacity(sizes, srcs[1..])
  }

  lemma {:induction false} SmallNeedStays(sizes: seq<real>, srcs: seq<real>, need: real)
    requires IsLadder(sizes) && 0.0 <= need <= SLACK
    ensures Unmet(sizes, srcs, need) == need
    ensures |Walk(sizes, srcs, need)| == |srcs| && forall k :: 0 <= k < |srcs| ==> Walk(sizes, srcs, need)[k] == 0
  {
    if srcs != [] {
      SmallNeedKeeps(sizes, srcs[0], need);
      SmallNeedStays(sizes, srcs[1..], need);
    }
  }

  predicate Shrinks(sizes: seq<real>, srcs: seq<real>)
    requires IsLadder(sizes)
  {
    forall k :: 0 <= k < |srcs| ==> MaxCompressed(sizes, srcs[k]) <= srcs[k]
  }

  lemma {:induction false} CapacityNonNegative(sizes: seq<real>, srcs: seq<real>)
    requires IsLadder(sizes) && Shrinks(sizes, srcs)
    ensures Capacity(sizes, srcs) >= 0.0
  {
    if srcs != [] {
      forall k | 0 <= k < |srcs[1..]|
        ensures MaxCompressed(sizes, srcs[1..][k]) <= srcs[1..][k]
      {
        assert srcs[1..][k] == srcs[k + 1];
      }
      CapacityNonNegative(sizes, srcs[1..]);
      assert MaxCompressed(sizes, srcs[0]) <= srcs[0];
    }
  }

  /** Completeness up to the slack: what the roles cannot give up, and at most the slack
      for each role, is all that can be left over. */
  lemma {:induction false} UnmetBound(sizes: seq<real>, srcs: seq<real>, need: real)
    requires IsLadder(sizes) && Shrinks(sizes, srcs) && 0.0 <= need
    ensures Unmet(sizes, srcs, need) <= MaxReal(0.0, need - Capacity(sizes, srcs)) + |srcs| as real * SLACK
  {
    if srcs != [] {
      var left := Left(sizes, srcs[0], need);
      forall k | 0 <= k < |srcs[1..]|
        ensures MaxCompressed(sizes, srcs[1..][k]) <= srcs[1..][k]
      {
        assert srcs[1..][k] == srcs[k + 1];
      }
      CapacityNonNegative(sizes, srcs[1..]);
      if need <= srcs[0] - MaxCompressed(sizes, srcs[0]) {
        MetNeed(sizes, srcs[0], need);
        SmallNeedStays(sizes, srcs[1..], left);
      } else {
        ChooseSpec(sizes, srcs[0], need);
        UnmetBound(sizes, srcs[1..], left);
      }
    }
  }

  /** If the fixed bytes and the fully squeezed roles fit the budget, the plan exceeds it by
      at most the slack for each role. */
  lemma FeasibleNearlyFits(sizes: seq<real>, fixed: real, srcs: seq<real>, budget: int)
    requires IsLadder(sizes) && Shrinks(sizes, srcs)
    requires fixed + Sum(srcs) - Capacity(sizes, srcs) <= budget as real / GIB
    ensures Unmet(sizes, srcs, Need(fixed, srcs, budget)) <= |srcs| as real * SLACK
    ensures fixed + Planned(sizes, srcs, Need(fixed, srcs, budget)) <= budget as real / GIB + |srcs| as real * SLACK
  {
    CapacityNonNegative(sizes, srcs);
    UnmetBound(sizes, srcs, Need(fixed, srcs, budget));
    UnmetIsExcess(sizes, srcs, fixed + Sum(srcs) - budget as real / GIB);
  }

  /** What the source's own defaults bring: a ladder with as many sizes as names, whose last
      type makes every role smaller. */
  lemma Defaults(srcs: seq<real>)
    requires forall k :: 0 <= k < |srcs| ==> srcs[k] >= 0.0
    ensures IsLadder(SIZES) && |LADDER| == |SIZES| && Shrinks(SIZES, srcs)
    ensures forall i, j :: 0 <= i < j < |PRIORITY| ==> PRIORITY[i] != PRIORITY[j]
  {
    forall k | 0 <= k < |srcs| ensures MaxCompressed(SIZES, srcs[k]) <= srcs[k] {
      assert Scale(SIZES, 16) == 0.258 / 1.0625;
    }
  }

  /** The slack is more than a byte, so a feasible budget can be missed: 10625 bytes of ffn
      against a budget of 8199 stop at q6_k, one byte over, although iq2_xxs needs 2580. */
  lemma SlackCanOvershoot()
    ensures IsLadder(SIZES)
    ensures var srcs := [10625.0 / GIB];
            && Walk(SIZES, srcs, Need(0.0, srcs, 8199)) == [1]
            && Sum(srcs) - Capacity(SIZES, srcs) == 2580.0 / GIB
            && EstimatedBytes(SIZES, 0.0, srcs, 8199) == 8200
            && !Fits(SIZES, 0.0, srcs, 8199)
  {
    var src := 10625.0 / GIB;
    var srcs := [src];
    assert srcs[1..] == [];
    assert Sum(srcs) == src;
    var need := Need(0.0, srcs, 8199);
    assert need == 2426.0 / GIB;
    assert Candidate(SIZES, src, 0) == src;
    assert Candidate(SIZES, src, 1) == 8200.0 / GIB;
    assert MaxCompressed(SIZES, src) == 2580.0 / GIB;
    assert Target(SIZES, src, need) == 8199.0 / GIB;
    assert FirstFit(SIZES, src, 8199.0 / GIB, 1) == 1;
    assert FirstFit(SIZES, src, 8199.0 / GIB, 0) == 1;
    assert Choose(SIZES, src, need) == 1;
    assert Planned(SIZES, srcs, need) == 8200.0 / GIB;
    assert (8200.0 / GIB) * GIB == 8200.0;
  }

  // ---------------------------------------------------------------- priority

  /** What is still needed when the walk reaches role k. */
  function NeedAt(sizes: seq<real>, srcs: seq<real>, need: real, k: nat): real
    requires IsLadder(sizes) && k <= |srcs|
  {
    if k == 0 then need else NeedAt(sizes, srcs[1..], Left(sizes, srcs[0], need), k - 1)
  }

  lemma {:induction false} WalkShape(sizes: seq<real>, srcs: seq<real>, need: real)
    requires IsLadder(sizes)
    ensures |Walk(sizes, srcs, need)| == |srcs| && forall i :: 0 <= i < |srcs| ==> Walk(sizes, srcs, need)[i] < |sizes|
  {
    if srcs != [] { WalkShape(sizes, srcs[1..], Left(sizes, srcs[0], need)); }
  }

  /** The sizes of the roles at these ladder types. */
  function SizesOf(sizes: seq<real>, srcs: seq<real>, walk: seq<nat>): seq<real>
    requires IsLadder(sizes) && |walk| == |srcs| && forall k :: 0 <= k < |walk| ==> walk[k] < |sizes|
  {
    if srcs == [] then [] else [srcs[0] * (sizes[walk[0]] / sizes[0])] + SizesOf(sizes, srcs[1..], walk[1..])
  }

  lemma SumFirst(x: real, rest: seq<real>)
    ensures Sum([x] + rest) == x + Sum(rest)
  {
    assert ([x] + rest)[1..] == rest;
  }

  /** The plan's size is the sum of its roles' sizes at the types the plan gives them, ... */
  lemma {:induction false} PlannedIsSum(sizes: seq<real>, srcs: seq<real>, need: real, walk: seq<nat>)
    requires IsLadder(sizes) && walk == Walk(sizes, srcs, need)
    ensures |walk| == |srcs| && forall k :: 0 <= k < |walk| ==> walk[k] < |sizes|
    ensures Planned(sizes, srcs, need) == Sum(SizesOf(sizes, srcs, walk))
  {
    WalkShape(sizes, srcs, need);
    if srcs != [] {
      PlannedIsSum(sizes, srcs[1..], Left(sizes, srcs[0], need), walk[1..]);
      SumFirst(srcs[0] * (sizes[walk[0]] / sizes[0]), SizesOf(sizes, srcs[1..], walk[1..]));
    }
  }

  /** ... and the estimate is the whole bytes in it and the untouched roles together. */
  lemma EstimateWrittenOut(sizes: seq<real>, fixed: real, srcs: seq<real>, budget: int, walk: seq<nat>)
    requires IsLadder(sizes) && walk == Walk(sizes, srcs, Need(fixed, srcs, budget))
    ensures |walk| == |srcs| && forall k :: 0 <= k < |walk| ==> walk[k] < |sizes|
    ensures var total := (fixed + Sum(SizesOf(sizes, srcs, walk))) * 1073741824.0;
            EstimatedBytes(sizes, fixed, srcs, budget) as real <= total
            < EstimatedBytes(sizes, fixed, srcs, budget) as real + 1.0
    ensures Need(fixed, srcs, budget)
            == if (fixed + Sum(srcs)) * 1073741824.0 <= budget as real then 0.0
               else fixed + Sum(srcs) - budget as real / 1073741824.0
  {
    PlannedIsSum(sizes, srcs, Need(fixed, srcs, budget), walk);
  }

  lemma {:induction false} WalkAt(sizes: seq<real>, srcs: seq<real>, need: real, k: nat)
    requires IsLadder(sizes) && k < |srcs| && need >= 0.0
    ensures |Walk(sizes, srcs, need)| == |srcs| && NeedAt(sizes, srcs, need, k) >= 0.0
    ensures Walk(sizes, srcs, need)[k] == Choose(sizes, srcs[k], NeedAt(sizes, srcs, need, k))
  {
    WalkShape(sizes, srcs, need);
    if k > 0 { WalkAt(sizes, srcs[1..], Left(sizes, srcs[0], need), k - 1); }
  }

  /** No ladder type before the last comes within the slack of it, for a role of this size. */
  predicate LastStandsAlone(sizes: seq<real>, src: real)
    requires IsLadder(sizes)
  {
    forall h :: 0 <= h < |sizes| - 1 ==> Candidate(sizes, src, h) > MaxCompressed(sizes, src) + SLACK
  }

  /** A role asked for more than it can give is squeezed to within the slack of its
      smallest size, and to the last type exactly when that type stands alone. */
  lemma FullySqueezed(sizes: seq<real>, src: real, need: real)
    requires IsLadder(sizes) && need > src - MaxCompressed(sizes, src)
    ensures ChosenSize(sizes, src, need) <= MaxCompressed(sizes, src) + SLACK
    ensures Choose(sizes, src, need) == |sizes| - 1 <==> LastStandsAlone(sizes, src)
  {
    ChooseSpec(sizes, src, need);
    assert Target(sizes, src, need) == MaxCompressed(sizes, src);
  }

  /** A later role is touched only after every earlier one has given all it can: it is at
      the last ladder type, unless another type is within the slack of that one. */
  lemma {:induction false} LaterOnlyAfterEarlier(sizes: seq<real>, srcs: seq<real>, need: real, i: nat, j: nat)
    requires IsLadder(sizes) && need >= 0.0 && i < j < |srcs|
    requires |Walk(sizes, srcs, need)| == |srcs| && Walk(sizes, srcs, need)[j] > 0
    ensures var k := Walk(sizes, srcs, need)[i];
            && k < |sizes|
            && Candidate(sizes, srcs[i], k) <= MaxCompressed(sizes, srcs[i]) + SLACK
            && (k == |sizes| - 1 <==> LastStandsAlone(sizes, srcs[i]))
  {
    var rest, left := srcs[1..], Left(sizes, srcs[0], need);
    WalkShape(sizes, rest, left);
    if i > 0 {
      LaterOnlyAfterEarlier(sizes, rest, left, i - 1, j - 1);
    } else {
      if left <= SLACK { SmallNeedStays(sizes, rest, left); }
      if need <= srcs[0] - MaxCompressed(sizes, srcs[0]) { MetNeed(sizes, srcs[0], need); }
      FullySqueezed(sizes, srcs[0], need);
    }
  }

  // ---------------------------------------------------------------- when a plan fits

  ghost predicate AllStandAlone(sizes: seq<real>, srcs: seq<real>)
    requires IsLadder(sizes)
  {
    forall k :: 0 <= k < |srcs| ==> LastStandsAlone(sizes, srcs[k])
  }

  /** What one role can give up. */
  function Give(sizes: seq<real>, src: real): real
    requires IsLadder(sizes)
  {
    src - MaxCompressed(sizes, src)
  }

  /** The first role up to which the roles together can give up what is needed. */
  function Deciding(sizes: seq<real>, srcs: seq<real>, need: real): (k: nat)
    requires IsLadder(sizes) && srcs != [] && need <= Capacity(sizes, srcs)
    ensures k < |srcs|
  {
    if |srcs| == 1 || need <= Give(sizes, srcs[0]) then 0
    else 1 + Deciding(sizes, srcs[1..], need - Give(sizes, srcs[0]))
  }

  /** What the roles before it leave that role to save. */
  function Share(sizes: seq<real>, srcs: seq<real>, need: real, k: nat): real
    requires IsLadder(sizes) && k <= |srcs|
  {
    if k == 0 then need else Share(sizes, srcs[1..], need - Give(sizes, srcs[0]), k - 1)
  }

  /** How far a role of `src` GiB that is to save `need` ends above its target. */
  function Above(sizes: seq<real>, src: real, need: real): real
    requires IsLadder(sizes)
  {
    Candidate(sizes, src, FirstFit(sizes, src, src - need, 0)) - (src - need)
  }

  /** A role asked for more than it can give passes the rest on in full. */
  lemma PassesOn(sizes: seq<real>, src: real, need: real)
    requires IsLadder(sizes) && LastStandsAlone(sizes, src) && need > Give(sizes, src)
    ensures Left(sizes, src, need) == need - Give(sizes, src)
  {
    FullySqueezed(sizes, src, need);
  }

  /** A role that can save what it is asked for leaves what it ends above its target. */
  lemma Settles(sizes: seq<real>, srcs: seq<real>, need: real)
    requires IsLadder(sizes) && srcs != [] && 0.0 <= need <= Give(sizes, srcs[0])
    ensures Unmet(sizes, srcs, need) == MaxReal(0.0, Above(sizes, srcs[0], need))
  {
    MetNeed(sizes, srcs[0], need);
    SmallNeedStays(sizes, srcs[1..], Left(sizes, srcs[0], need));
    assert Target(sizes, srcs[0], need) == srcs[0] - need;
  }

  lemma TailShrinks(sizes: seq<real>, srcs: seq<real>)
    requires IsLadder(sizes) && srcs != [] && Shrinks(sizes, srcs) && AllStandAlone(sizes, srcs)
    ensures Shrinks(sizes, srcs[1..]) && AllStandAlone(sizes, srcs[1..])
  {
    forall k | 0 <= k < |srcs[1..]|
      ensures MaxCompressed(sizes, srcs[1..][k]) <= srcs[1..][k] && LastStandsAlone(sizes, srcs[1..][k])
    {
      assert srcs[1..][k] == srcs[k + 1];
    }
  }

  lemma {:induction false} UnmetFeasible(sizes: seq<real>, srcs: seq<real>, need: real)
    requires IsLadder(sizes) && Shrinks(sizes, srcs) && AllStandAlone(sizes, srcs)
    requires srcs != [] && 0.0 <= need <= Capacity(sizes, srcs)
    ensures var k := Deciding(sizes, srcs, need);
            Unmet(sizes, srcs, need) == MaxReal(0.0, Above(sizes, srcs[k], Share(sizes, srcs, need, k)))
  {
    if need <= Give(sizes, srcs[0]) {
      Settles(sizes, srcs, need);
    } else {
      TailShrinks(sizes, srcs);
      PassesOn(sizes, srcs[0], need);
      OneRole(sizes, srcs, need);
      UnmetFeasible(sizes, srcs[1..], need - Give(sizes, srcs[0]));
    }
  }

  lemma OneRole(sizes: seq<real>, srcs: seq<real>, need: real)
    requires IsLadder(sizes) && srcs != [] && Give(sizes, srcs[0]) < need <= Capacity(sizes, srcs)
    ensures |srcs| > 1 && 0.0 <= need - Give(sizes, srcs[0]) <= Capacity(sizes, srcs[1..])
  {
    assert Capacity(sizes, []) == 0.0;
  }

  lemma {:induction false} UnmetInfeasible(sizes: seq<real>, srcs: seq<real>, need: real)
    requires IsLadder(sizes) && Shrinks(sizes, srcs) && AllStandAlone(sizes, srcs) && need > Capacity(sizes, srcs)
    ensures Unmet(sizes, srcs, need) == need - Capacity(sizes, srcs)
  {
    if srcs != [] {
      TailShrinks(sizes, srcs);
      CapacityNonNegative(sizes, srcs[1..]);
      PassesOn(sizes, srcs[0], need);
      UnmetInfeasible(sizes, srcs[1..], need - Give(sizes, srcs[0]));
    }
  }

  /** The exact condition on the inputs, for roles whose last ladder type stands alone.  A
      feasible budget is met if and only if the deciding role, the first up to which the roles
      can save enough, ends less than one byte above its target; an infeasible one, if and only
      if it is missed by less than a byte. */
  lemma FitsIff(sizes: seq<real>, fixed: real, srcs: seq<real>, budget: int)
    requires IsLadder(sizes) && Shrinks(sizes, srcs) && AllStandAlone(sizes, srcs)
    ensures var need := Need(fixed, srcs, budget);
            Fits(sizes, fixed, srcs, budget) <==>
              if need > Capacity(sizes, srcs) then (need - Capacity(sizes, srcs)) * GIB < 1.0
              else if srcs == [] then true
              else
                var k := Deciding(sizes, srcs, need);
                Above(sizes, srcs[k], Share(sizes, srcs, need, k)) * GIB < 1.0
  {
    var need := Need(fixed, srcs, budget);
    FitsIffUnderOneByte(sizes, fixed, srcs, budget);
    if need > Capacity(sizes, srcs) { UnmetInfeasible(sizes, srcs, need); }
    else if srcs != [] { UnmetFeasible(sizes, srcs, need); }
  }

  /** The deciding role: those before it cannot save enough, with it they can, and its share is
      what is left when they have given up everything. */
  lemma {:induction false} DecidingSpec(sizes: seq<real>, srcs: seq<real>, need: real, k: nat)
    requires IsLadder(sizes) && srcs != [] && 0.0 <= need <= Capacity(sizes, srcs)
    requires k == Deciding(sizes, srcs, need)
    ensures need <= Capacity(sizes, srcs[..k + 1]) && (k > 0 ==> Capacity(sizes, srcs[..k]) < need)
    ensures Share(sizes, srcs, need, k) == need - Capacity(sizes, srcs[..k])
  {
    if k == 0 {
      assert srcs[..1][1..] == [];
      if |srcs| == 1 { assert srcs[..1] == srcs; }
    } else {
      OneRole(sizes, srcs, need);
      DecidingSpec(sizes, srcs[1..], need - Give(sizes, srcs[0]), k - 1);
      assert srcs[..k + 1][1..] == srcs[1..][..k] && srcs[..k][1..] == srcs[1..][..k - 1];
      assert k == 1 ==> srcs[..1][1..] == [];
    }
  }

  /** With the default ladder that is every role of at least 143 bytes. */
  lemma DefaultLastStandsAlone(bytes: nat)
    requires bytes >= 143
    ensures IsLadder(SIZES) && LastStandsAlone(SIZES, bytes as real / GIB)
  {
    var src := bytes as real / GIB;
    assert src >= 143.0 / GIB;
    forall h | 0 <= h < 16 ensures Candidate(SIZES, src, h) > MaxCompressed(SIZES, src) + SLACK {
      assert SizeAt(h) >= 0.266;
    }
  }

  /** Rungs that a rung above them dominates are never chosen: q5_1, q4_1, q4_0, iq4_nl
      and iq3_s. */
  lemma DeadRungs(src: real, need: real)
    requires src >= 0.0
    ensures IsLadder(SIZES) && Choose(SIZES, src, need) !in {3, 6, 7, 8, 11}
  {
    ChooseSpec(SIZES, src, need);
    Dominates(src, 2, 3);
    Dominates(src, 5, 6);
    Dominates(src, 5, 7);
    Dominates(src, 5, 8);
    Dominates(src, 10, 11);
  }

  lemma Dominates(src: real, i: nat, j: nat)
    requires src >= 0.0 && i < 17 && j < 17 && SizeAt(i) <= SizeAt(j)
    ensures IsLadder(SIZES) && Candidate(SIZES, src, i) <= Candidate(SIZES, src, j)
  {
    assert SizeAt(i) / 1.0625 <= SizeAt(j) / 1.0625;
  }
}
