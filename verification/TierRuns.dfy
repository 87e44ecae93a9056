/** Sequences of LFRU swaps: how far from optimal a quiet resident set can be, and why
    the hysteresis gate cannot thrash. */
module TierRuns {
  import opened Basics
  import opened ExpertTier

  // ---------------------------------------------------------------- near-optimality

  /** The score of the members of a set of ids below k. */
  function SumIn(t: Table, s: set<int>, k: nat): nat
    requires t.Ok() && k <= |t.heat|
  {
    if k == 0 then 0 else SumIn(t, s, k - 1) + if k - 1 in s then ScoreOf(t, k - 1) else 0
  }

  function CountIn(s: set<int>, k: nat): nat {
    if k == 0 then 0 else CountIn(s, k - 1) + if k - 1 in s then 1 else 0
  }

  predicate IdsBelow(s: set<int>, n: nat) {
    forall c :: c in s ==> 0 <= c < n
  }

  lemma {:induction false} CountIsSize(s: set<int>, k: nat)
    requires IdsBelow(s, k)
    ensures CountIn(s, k) == |s|
  {
    if k > 0 {
      CountIsSize(s - {k - 1}, k - 1);
      CountSame(s, s - {k - 1}, k - 1);
      assert k - 1 !in s ==> s - {k - 1} == s;
    } else {
      assert forall c :: c !in s;
      assert s == {};
    }
  }

  lemma {:induction false} CountSame(a: set<int>, b: set<int>, k: nat)
    requires forall c :: 0 <= c < k ==> (c in a <==> c in b)
    ensures CountIn(a, k) == CountIn(b, k)
  {
    if k > 0 { CountSame(a, b, k - 1); }
  }

  lemma {:induction false} SumSplit(t: Table, a: set<int>, b: set<int>, k: nat)
    requires t.Ok() && k <= |t.heat|
    ensures SumIn(t, a, k) == SumIn(t, a - b, k) + SumIn(t, a * b, k)
    ensures CountIn(a, k) == CountIn(a - b, k) + CountIn(a * b, k)
  {
    if k > 0 { SumSplit(t, a, b, k - 1); }
  }

  lemma Distribute(m: nat, x: nat)
    ensures (m + 1) * x == m * x + x
  {
  }

  lemma {:induction false} SumAtMost(t: Table, s: set<int>, k: nat, top: nat)
    requires t.Ok() && k <= |t.heat|
    requires forall c :: 0 <= c < k && c in s ==> 4 * ScoreOf(t, c) <= top
    ensures 4 * SumIn(t, s, k) <= CountIn(s, k) * top
  {
    if k > 0 {
      SumAtMost(t, s, k - 1, top);
      Distribute(CountIn(s, k - 1), top);
    }
  }

  lemma {:induction false} SumAtLeast(t: Table, s: set<int>, k: nat, low: nat)
    requires t.Ok() && k <= |t.heat|
    requires forall c :: 0 <= c < k && c in s ==> ScoreOf(t, c) >= low
    ensures SumIn(t, s, k) >= CountIn(s, k) * low
  {
    if k > 0 {
      SumAtLeast(t, s, k - 1, low);
      Distribute(CountIn(s, k - 1), low);
    }
  }

  /** Outside the resident set every score is below the gate's threshold for the coldest
      resident, and every resident score is above it. */
  lemma QuietBounds(t: Table, resident: seq<int>) returns (cold: nat)
    requires ValidIds(t, resident) && 1 <= |resident| < |t.heat| && Pick(t, resident).None?
    ensures forall c :: 0 <= c < |t.heat| && c !in Ids(resident) ==> 4 * ScoreOf(t, c) <= 5 * cold + 4096
    ensures forall c :: 0 <= c < |t.heat| && c in Ids(resident) ==> ScoreOf(t, c) >= cold
  {
    ColdestIsLeast(t, resident, |resident|);
    var z := Coldest(t, resident, |resident|);
    cold := ScoreOf(t, resident[z]);
    forall c | 0 <= c < |t.heat| && c !in Ids(resident) ensures 4 * ScoreOf(t, c) <= 5 * cold + 4096 {
      assert c !in resident;
      PickSpec(t, resident);
    }
    forall c | 0 <= c < |t.heat| && c in Ids(resident) ensures ScoreOf(t, c) >= cold {
      var j :| 0 <= j < |resident| && resident[j] == c;
    }
  }

  lemma Exchange(m: nat, cold: nat, outside: nat, inside: nat, common: nat, nres: nat)
    requires 4 * outside <= m * (5 * cold + 4096) && inside >= m * cold && m <= nres
    ensures 4 * (outside + common) <= 5 * (inside + common) + 4096 * nres
  {
    assert m * (5 * cold + 4096) == 5 * (m * cold) + 4096 * m;
  }

  /** The chunks on either side of an equal-sized exchange are equally many. */
  lemma EvenExchange(t: Table, a: set<int>, b: set<int>)
    requires t.Ok() && IdsBelow(a, |t.heat|) && IdsBelow(b, |t.heat|) && |a| == |b|
    ensures CountIn(a - b, |t.heat|) == CountIn(b - a, |t.heat|) <= |b|
    ensures SumIn(t, a, |t.heat|) == SumIn(t, a - b, |t.heat|) + SumIn(t, a * b, |t.heat|)
    ensures SumIn(t, b, |t.heat|) == SumIn(t, b - a, |t.heat|) + SumIn(t, a * b, |t.heat|)
  {
    SumSplit(t, a, b, |t.heat|);
    SumSplit(t, b, a, |t.heat|);
    assert b * a == a * b;
    CountIsSize(a, |t.heat|);
    CountIsSize(b, |t.heat|);
  }

  /** At quiescence no choice of equally many chunks scores more than five quarters of
      the resident score plus the fixed floor for each resident. */
  lemma QuietIsNearOptimal(t: Table, resident: seq<int>, other: set<int>)
    requires ValidIds(t, resident) && Distinct(resident) && 1 <= |resident| < |t.heat|
    requires Pick(t, resident).None?
    requires IdsBelow(other, |t.heat|) && |other| == |resident|
    ensures 4 * SumIn(t, other, |t.heat|) <= 5 * SumIn(t, Ids(resident), |t.heat|) + 4 * 1024 * |resident|
  {
    var n, r := |t.heat|, Ids(resident);
    ElementCount(resident);
    EvenExchange(t, other, r);
    var cold := QuietBounds(t, resident);
    SumAtMost(t, other - r, n, 5 * cold + 4096);
    SumAtLeast(t, r - other, n, cold);
    Exchange(CountIn(other - r, n), cold, SumIn(t, other - r, n), SumIn(t, r - other, n), SumIn(t, other * r, n),
      |resident|);
  }

  // ---------------------------------------------------------------- runs

  /** What may happen between touches: a decay pass, a clock advance (with any `last`
      values at all), and a pick whose swap the caller carries out. */
  datatype Event = DecayPass | Retime(last: seq<u32>, clock: u32) | Repin

  /** The resident ids, and which swaps have been made. */
  datatype History = History(t: Table, resident: seq<int>, promoted: set<int>, demoted: set<int>, swaps: nat)

  predicate Fits(h: History, e: Event) {
    e.Retime? ==> |e.last| == |h.t.heat|
  }

  predicate Sound(h: History) {
    ValidIds(h.t, h.resident) && Distinct(h.resident)
  }

  /** The caller replaces the victim by the promoted id in `resident[]`. */
  function Act(h: History, e: Event): History
    requires Sound(h) && Fits(h, e)
  {
    match e
    case DecayPass => h.(t := Table(Halved(h.t.heat), h.t.last, h.t.clock))
    case Retime(last, clock) => h.(t := Table(h.t.heat, last, clock))
    case Repin =>
      match Pick(h.t, h.resident)
      case None => h
      case Some(s) =>
        PickSpec(h.t, h.resident);
        History(h.t, h.resident[s.slot := s.promote], h.promoted + {s.promote}, h.demoted + {s.victim}, h.swaps + 1)
  }

  lemma ActSound(h: History, e: Event)
    requires Sound(h) && Fits(h, e)
    ensures Sound(Act(h, e)) && |Act(h, e).t.heat| == |h.t.heat| && |Act(h, e).resident| == |h.resident|
  {
    PickSpec(h.t, h.resident);
  }

  ghost predicate Runs(h: History, es: seq<Event>, g: History)
    decreases |es|
  {
    if es == [] then h == g
    else Sound(h) && Fits(h, es[0]) && Runs(Act(h, es[0]), es[1..], g)
  }

  /** Heat order around the chunks that have moved: a promoted chunk is resident and no
      non-resident has more heat; a demoted one is not resident and no resident has less. */
  ghost predicate HeatSettled(heat: seq<u32>, ids: set<int>, promoted: set<int>, demoted: set<int>, swaps: nat,
        start: set<int>) {
    && IdsBelow(promoted, |heat|) && IdsBelow(demoted, |heat|) && IdsBelow(ids, |heat|)
    && promoted <= ids && promoted !! start
    && demoted !! ids && demoted <= start
    && ids == (start - demoted) + promoted
    && |promoted| == |demoted| == swaps
    && (forall p, c :: p in promoted && 0 <= c < |heat| && c !in ids ==> heat[c] <= heat[p])
    && (forall d, r :: d in demoted && r in ids ==> heat[d] <= heat[r])
  }

  ghost predicate Settled(h: History, start: set<int>) {
    Sound(h) && HeatSettled(h.t.heat, Ids(h.resident), h.promoted, h.demoted, h.swaps, start)
  }

  lemma HeatSwap(heat: seq<u32>, ids: set<int>, promoted: set<int>, demoted: set<int>, swaps: nat, start: set<int>,
                 victim: int, promote: int)
    requires HeatSettled(heat, ids, promoted, demoted, swaps, start)
    requires victim in ids && 0 <= promote < |heat| && promote !in ids && heat[promote] > heat[victim]
    requires forall r :: r in ids ==> heat[victim] <= heat[r]
    requires forall c :: 0 <= c < |heat| && c !in ids ==> heat[c] <= heat[promote]
    ensures victim !in promoted && promote !in demoted && victim in start && promote !in start
    ensures HeatSettled(heat, ids - {victim} + {promote}, promoted + {promote}, demoted + {victim}, swaps + 1, start)
  {
    assert promote !in promoted && victim !in demoted;
  }

  lemma IdsOfUpdate(s: seq<int>, k: nat, x: int)
    requires k < |s| && Distinct(s) && x !in s
    ensures Ids(s[k := x]) == Ids(s) - {s[k]} + {x}
  {
    var u := s[k := x];
    forall y | y in Ids(s) - {s[k]} + {x} ensures y in Ids(u) {
      if y == x { assert u[k] == x; }
      else { var j :| 0 <= j < |s| && s[j] == y; assert u[j] == y; }
    }
  }

  /** A swap in terms of heat alone. */
  lemma SwapByHeat(t: Table, resident: seq<int>)
    requires ValidIds(t, resident) && Distinct(resident) && Pick(t, resident).Some?
    ensures var s := Pick(t, resident).value;
            var ids := Ids(resident);
            && s.slot < |resident| && s.victim == resident[s.slot]
            && s.victim in ids && 0 <= s.victim < |t.heat| && 0 <= s.promote < |t.heat| && s.promote !in ids
            && Ids(resident[s.slot := s.promote]) == ids - {s.victim} + {s.promote}
            && t.heat[s.promote] >= t.heat[s.victim] + 4
            && (forall r :: r in ids ==> 0 <= r < |t.heat| && t.heat[s.victim] <= t.heat[r])
            && (forall c :: 0 <= c < |t.heat| && c !in ids ==> t.heat[c] <= t.heat[s.promote])
  {
    PickSpec(t, resident);
    var s := Pick(t, resident).value;
    IdsOfUpdate(resident, s.slot, s.promote);
    forall r | r in Ids(resident) ensures 0 <= r < |t.heat| && t.heat[s.victim] <= t.heat[r] {
      var j :| 0 <= j < |resident| && resident[j] == r;
    }
    forall c | 0 <= c < |t.heat| && c !in Ids(resident) ensures t.heat[c] <= t.heat[s.promote] {
      assert c !in resident;
    }
  }

  /** A swap never touches a chunk that has moved before. */
  lemma SwapIsNew(h: History, start: set<int>)
    requires Settled(h, start)
    ensures match Pick(h.t, h.resident)
            case None => true
            case Some(s) =>
              s.victim !in h.promoted && s.promote !in h.demoted && s.victim in start && s.promote !in start
    ensures Settled(Act(h, Repin), start)
  {
    ActSound(h, Repin);
    if Pick(h.t, h.resident).Some? {
      var s := Pick(h.t, h.resident).value;
      SwapByHeat(h.t, h.resident);
      HeatSwap(h.t.heat, Ids(h.resident), h.promoted, h.demoted, h.swaps, start, s.victim, s.promote);
    }
  }

  lemma ActSettled(h: History, e: Event, start: set<int>)
    requires Settled(h, start) && Fits(h, e)
    ensures Settled(Act(h, e), start)
  {
    ActSound(h, e);
    SwapIsNew(h, start);
  }

  lemma {:induction false} RunSettled(h: History, es: seq<Event>, g: History, start: set<int>)
    requires Settled(h, start) && Runs(h, es, g)
    ensures Settled(g, start) && |g.t.heat| == |h.t.heat|
    decreases |es|
  {
    if es != [] {
      ActSound(h, es[0]);
      ActSettled(h, es[0], start);
      RunSettled(Act(h, es[0]), es[1..], g, start);
    }
  }

  function Fresh(t: Table, resident: seq<int>): History {
    History(t, resident, {}, {}, 0)
  }

  /** No ping-pong: over any run of decay passes, clock advances and swaps, however
      timed, no later pick demotes a chunk that was promoted or promotes one that was
      demoted.  Hence a run makes at most min(nres, ncand - nres) swaps. */
  lemma NoPingPong(t: Table, resident: seq<int>, es: seq<Event>, g: History)
    requires ValidIds(t, resident) && Distinct(resident) && |resident| <= |t.heat|
    requires Runs(Fresh(t, resident), es, g)
    ensures Sound(g) && g.promoted !! g.demoted
    ensures g.promoted <= Ids(g.resident) && g.demoted !! Ids(g.resident)
    ensures match Pick(g.t, g.resident)
            case None => true
            case Some(s) => s.victim !in g.promoted && s.promote !in g.demoted
    ensures g.swaps <= |resident| && g.swaps <= |t.heat| - |resident|
  {
    var start := Ids(resident);
    RunSettled(Fresh(t, resident), es, g, start);
    SwapIsNew(g, start);
    ElementCount(resident);
    SubsetSize(g.demoted, start);
    assert |g.promoted + start| == |g.promoted| + |start|;
    RangeFilled(|t.heat|, g.promoted + start);
  }

  lemma SubsetSize(a: set<int>, b: set<int>)
    requires a <= b
    ensures |a| <= |b|
  {
    assert b == a + (b - a);
  }

  // ---------------------------------------------------------------- frozen heat

  /** The resident set after k picks with heat, last and clock frozen. */
  function Repinned(h: History, k: nat): History
    requires Sound(h)
    ensures Sound(Repinned(h, k)) && Repinned(h, k).t == h.t
  {
    if k == 0 then h
    else
      ActSound(Repinned(h, k - 1), Repin);
      Act(Repinned(h, k - 1), Repin)
  }

  lemma {:induction false} RepinnedRuns(h: History, k: nat) returns (es: seq<Event>)
    requires Sound(h)
    ensures Runs(h, es, Repinned(h, k))
  {
    if k == 0 {
      es := [];
    } else {
      var before := RepinnedRuns(h, k - 1);
      es := before + [Repin];
      RunsAppend(h, before, Repinned(h, k - 1));
    }
  }

  lemma {:induction false} RunsAppend(h: History, es: seq<Event>, g: History)
    requires Runs(h, es, g) && Sound(g)
    ensures Runs(h, es + [Repin], Act(g, Repin))
    decreases |es|
  {
    if es == [] {
      assert (es + [Repin])[1..] == [];
    } else {
      assert (es + [Repin])[1..] == es[1..] + [Repin];
      RunsAppend(Act(h, es[0]), es[1..], g);
    }
  }

  lemma {:induction false} SwapsUntilQuiet(h: History, k: nat)
    requires Sound(h)
    ensures Pick(h.t, Repinned(h, k).resident).Some? ==> Repinned(h, k + 1).swaps == h.swaps + k + 1
  {
    if k > 0 { SwapsUntilQuiet(h, k - 1); }
  }

  lemma SwapsWithinBudget(t: Table, resident: seq<int>, k: nat)
    requires ValidIds(t, resident) && Distinct(resident) && |resident| <= |t.heat|
    ensures Repinned(Fresh(t, resident), k).swaps <= |resident|
    ensures Repinned(Fresh(t, resident), k).swaps <= |t.heat| - |resident|
  {
    var es := RepinnedRuns(Fresh(t, resident), k);
    NoPingPong(t, resident, es, Repinned(Fresh(t, resident), k));
  }

  /** With heat, last and clock frozen, repeating pick-and-swap is quiet after at most
      min(nres, ncand - nres) swaps, and stays so. */
  lemma FrozenQuiesces(t: Table, resident: seq<int>, k: nat)
    requires ValidIds(t, resident) && Distinct(resident) && |resident| <= |t.heat|
    requires k >= |resident| || k >= |t.heat| - |resident|
    ensures Pick(t, Repinned(Fresh(t, resident), k).resident).None?
  {
    var h := Fresh(t, resident);
    if Pick(h.t, Repinned(h, k).resident).Some? {
      SwapsUntilQuiet(h, k);
      SwapsWithinBudget(t, resident, k + 1);
      assert false;
    }
  }
}
