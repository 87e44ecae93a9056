/** The LFRU promotion and demotion rule of gb_expert_tier.h: which device-resident
    chunk to demote and which host-resident chunk to promote. */
module ExpertTier {
  import opened Basics

  const TWO32: int := 0x1_0000_0000
  const TWO64: int := 0x1_0000_0000_0000_0000

  type u32 = x: int | 0 <= x < 0x1_0000_0000

  /** The candidate arrays cut to `ncand` entries, and the clock. */
  datatype Table = Table(heat: seq<u32>, last: seq<u32>, clock: u32) {
    predicate Ok() { |heat| == |last| }
  }

  /** `clock - last` in unsigned 32-bit arithmetic. */
  function Age(last: u32, clock: u32): u32 {
    (clock - last) % TWO32
  }

  /** `(heat << 8) | recent`; see ShiftOr for the two operators. */
  function LfruScore(heat: u32, last: u32, clock: u32): nat {
    var age := Age(last, clock);
    heat * 256 + if age < 255 then 255 - age else 0
  }

  /** A shifted 32-bit count or-ed with a byte is their sum, and fits 64 bits. */
  lemma ShiftOr(heat: bv64, recent: bv64)
    requires heat <= 0xFFFF_FFFF && recent <= 255
    ensures (heat << 8) | recent == heat * 256 + recent
    ensures ((heat << 8) | recent) >> 8 == heat
  {
  }

  /** One frequency count outranks every recency bonus; neither the score nor the
      threshold of the hysteresis gate overflows 64 bits. */
  lemma ScoreRange(heat: u32, last: u32, clock: u32)
    ensures heat * 256 <= LfruScore(heat, last, clock) <= heat * 256 + 255
    ensures Threshold(LfruScore(heat, last, clock)) < TWO64
  {
  }

  /** `cold_score + (cold_score >> 2) + (4u << 8)`. */
  function Threshold(cold: nat): nat {
    cold + cold / 4 + 1024
  }

  function ScoreOf(t: Table, c: int): nat
    requires t.Ok() && 0 <= c < |t.heat|
  {
    LfruScore(t.heat[c], t.last[c], t.clock)
  }

  /** What the function demands of the arrays it indexes. */
  predicate ValidIds(t: Table, resident: seq<int>) {
    t.Ok() && forall z :: 0 <= z < |resident| ==> 0 <= resident[z] < |t.heat|
  }

  /** The first position of the least score among the first k residents. */
  function Coldest(t: Table, resident: seq<int>, k: nat): nat
    requires ValidIds(t, resident) && 1 <= k <= |resident|
    ensures Coldest(t, resident, k) < k
  {
    if k == 1 then 0
    else
      var z := Coldest(t, resident, k - 1);
      if ScoreOf(t, resident[k - 1]) < ScoreOf(t, resident[z]) then k - 1 else z
  }

  /** The first non-resident id of the greatest score below k. */
  function Hottest(t: Table, resident: seq<int>, k: nat): Option<nat>
    requires t.Ok() && k <= |t.heat|
    ensures Hottest(t, resident, k).Some? ==> Hottest(t, resident, k).value < k
  {
    if k == 0 then None
    else
      var hot := Hottest(t, resident, k - 1);
      if k - 1 in resident then hot
      else if hot.None? || ScoreOf(t, k - 1) > ScoreOf(t, hot.value) then Some(k - 1)
      else hot
  }

  datatype Swap = Swap(slot: nat, victim: int, promote: int, gain: nat)

  function Pick(t: Table, resident: seq<int>): Option<Swap>
    requires ValidIds(t, resident)
  {
    if |resident| < 1 || |resident| >= |t.heat| then None
    else
      var z := Coldest(t, resident, |resident|);
      var hot := Hottest(t, resident, |t.heat|);
      if hot.None? then None
      else
        var cold := ScoreOf(t, resident[z]);
        var best := ScoreOf(t, hot.value);
        if best <= Threshold(cold) then None
        else Some(Swap(z, resident[z], hot.value, (best - cold) / 256))
  }

  /** The demotion scan. */
  method ScanColdest(heat: array<u32>, last: array<u32>, clock: u32, resident: array<int>, nres: nat, ghost t: Table)
    returns (coldIdx: nat, coldScore: nat)
    requires t.Ok() && |t.heat| <= heat.Length && |t.heat| <= last.Length && 1 <= nres <= resident.Length
    requires t == Table(heat[..|t.heat|], last[..|t.heat|], clock) && ValidIds(t, resident[..nres])
    ensures coldIdx == Coldest(t, resident[..nres], nres) && coldScore == ScoreOf(t, resident[coldIdx])
  {
    coldIdx := 0;
    assert resident[..nres][0] == resident[0];
    coldScore := LfruScore(heat[resident[0]], last[resident[0]], clock);
    for z: nat := 1 to nres
      invariant coldIdx == Coldest(t, resident[..nres], z) && coldScore == ScoreOf(t, resident[..nres][coldIdx])
    {
      assert resident[..nres][z] == resident[z];
      var s := LfruScore(heat[resident[z]], last[resident[z]], clock);
      if s < coldScore {
        coldScore, coldIdx := s, z;
      }
    }
  }

  /** The membership scan inside the promotion scan. */
  method IsResident(c: int, resident: array<int>, nres: nat) returns (found: bool)
    requires nres <= resident.Length
    ensures found <==> c in resident[..nres]
  {
    found := false;
    for z := 0 to nres
      invariant !found && c !in resident[..z]
    {
      if resident[z] == c {
        return true;
      }
    }
  }

  /** The promotion scan; -1 when every candidate is resident. */
  method ScanHottest(heat: array<u32>, last: array<u32>, clock: u32, ncand: nat, resident: array<int>, nres: nat)
    returns (hot: int, hotScore: nat)
    requires ncand <= heat.Length && ncand <= last.Length && nres <= resident.Length
    ensures var t := Table(heat[..ncand], last[..ncand], clock);
            match Hottest(t, resident[..nres], ncand)
            case None => hot == -1
            case Some(h) => hot == h && hotScore == ScoreOf(t, h)
  {
    hot, hotScore := -1, 0;
    ghost var t := Table(heat[..ncand], last[..ncand], clock);
    for c := 0 to ncand
      invariant match Hottest(t, resident[..nres], c)
                case None => hot == -1
                case Some(h) => hot == h && hotScore == ScoreOf(t, h)
    {
      var isResident := IsResident(c, resident, nres);
      if isResident { continue; }
      var s := LfruScore(heat[c], last[c], clock);
      if hot < 0 || s > hotScore {
        hot, hotScore := c, s;
      }
    }
  }

  /** `gb_tier_pick_lfru`: the null and range guards, the two scans and the gate. */
  method PickLfru(heat: array?<u32>, last: array?<u32>, clock: u32, ncand: int,
                  resident: array?<int>, nres: int)
    returns (ret: int, victimId: int, promoteId: int, gain: int)
    requires heat != null && last != null && resident != null && 1 <= nres < ncand ==>
      && ncand <= heat.Length && ncand <= last.Length && nres <= resident.Length
      && forall z :: 0 <= z < nres ==> 0 <= resident[z] < ncand
    ensures heat == null || last == null || resident == null || nres < 1 || ncand < 1 || nres >= ncand ==> ret == 0
    ensures heat != null && last != null && resident != null && 1 <= nres < ncand ==>
      var t := Table(heat[..ncand], last[..ncand], clock);
      && ValidIds(t, resident[..nres])
      && match Pick(t, resident[..nres])
         case None => ret == 0
         case Some(s) => ret == 1 && victimId == s.victim && promoteId == s.promote && gain == s.gain
  {
    ret, victimId, promoteId, gain := 0, 0, 0, 0;
    if heat == null || last == null || resident == null || nres < 1 || ncand < 1 || nres >= ncand {
      return;
    }
    ghost var t := Table(heat[..ncand], last[..ncand], clock);
    var coldIdx, coldScore := ScanColdest(heat, last, clock, resident, nres, t);
    var hot, hotScore := ScanHottest(heat, last, clock, ncand, resident, nres);
    if hot < 0 || hotScore <= Threshold(coldScore) {
      return;
    }
    ret, victimId, promoteId, gain := 1, resident[coldIdx], hot, (hotScore - coldScore) / 256;
  }

  function Halved(heat: seq<u32>): seq<u32> {
    seq(|heat|, c requires 0 <= c < |heat| => heat[c] / 2)
  }

  /** `gb_tier_decay`. */
  method Decay(heat: array<u32>, ncand: int)
    requires ncand <= heat.Length
    modifies heat
    ensures ncand >= 0 ==> heat[..] == Halved(old(heat[..ncand])) + old(heat[ncand..])
    ensures forall k :: 0 <= k < ncand ==> 2 * heat[k] <= old(heat[k]) <= 2 * heat[k] + 1
    ensures ncand < 0 ==> heat[..] == old(heat[..])
  {
    var c := 0;
    while c < ncand
      invariant 0 <= c && (ncand >= 0 ==> c <= ncand)
      invariant ncand < 0 ==> heat[..] == old(heat[..])
      invariant forall k :: 0 <= k < heat.Length ==> heat[k] == if k < c then old(heat[k]) / 2 else old(heat[k])
    {
      heat[c] := heat[c] / 2;
      c := c + 1;
    }
  }

  // ---------------------------------------------------------------- what a pick means

  lemma {:induction false} ColdestIsLeast(t: Table, resident: seq<int>, k: nat)
    requires ValidIds(t, resident) && 1 <= k <= |resident|
    ensures var z := Coldest(t, resident, k);
            && (forall j :: 0 <= j < k ==> ScoreOf(t, resident[z]) <= ScoreOf(t, resident[j]))
            && (forall j :: 0 <= j < z ==> ScoreOf(t, resident[z]) < ScoreOf(t, resident[j]))
  {
    if k > 1 { ColdestIsLeast(t, resident, k - 1); }
  }

  lemma {:induction false} HottestIsGreatest(t: Table, resident: seq<int>, k: nat)
    requires t.Ok() && k <= |t.heat|
    ensures match Hottest(t, resident, k)
            case None => forall c :: 0 <= c < k ==> c in resident
            case Some(h) =>
              && h !in resident
              && (forall c :: 0 <= c < k && c !in resident ==> ScoreOf(t, c) <= ScoreOf(t, h))
              && (forall c :: 0 <= c < h && c !in resident ==> ScoreOf(t, c) < ScoreOf(t, h))
  {
    if k > 0 { HottestIsGreatest(t, resident, k - 1); }
  }

  lemma {:induction false} ElementCount(s: seq<int>)
    ensures |Ids(s)| <= |s|
    ensures Distinct(s) ==> |Ids(s)| == |s|
  {
    if s != [] {
      ElementCount(s[1..]);
      assert Ids(s) == Ids(s[1..]) + {s[0]};
      if Distinct(s) {
        forall i, j | 0 <= i < j < |s[1..]| ensures s[1..][i] != s[1..][j] { assert s[i + 1] != s[j + 1]; }
      }
    } else {
      assert Ids(s) == {};
    }
  }

  function Ids(s: seq<int>): set<int> {
    set x | x in s
  }

  predicate Distinct(s: seq<int>) {
    forall i, j :: 0 <= i < j < |s| ==> s[i] != s[j]
  }

  /** The pigeonhole fact behind the `hot < 0` test: with fewer residents than
      candidates some candidate is not resident, repeated ids or not. */
  lemma NonResidentExists(t: Table, resident: seq<int>)
    requires t.Ok() && |resident| < |t.heat|
    ensures Hottest(t, resident, |t.heat|).Some?
  {
    HottestIsGreatest(t, resident, |t.heat|);
    ElementCount(resident);
    if Hottest(t, resident, |t.heat|).None? {
      RangeFits(|t.heat|, Ids(resident));
      assert false;
    }
  }

  /** What a swap promises: the coldest resident goes, the hottest non-resident comes,
      its score exceeds by a quarter and the floor, and so it leads by four counts. */
  lemma PickSpec(t: Table, resident: seq<int>)
    requires ValidIds(t, resident)
    ensures match Pick(t, resident)
            case None => 1 <= |resident| < |t.heat| ==>
              forall c, z :: 0 <= c < |t.heat| && c !in resident && 0 <= z < |resident| ==>
                ScoreOf(t, c) <= Threshold(ScoreOf(t, resident[z]))
            case Some(s) =>
              && s.slot < |resident| && s.victim == resident[s.slot]
              && 0 <= s.promote < |t.heat| && s.promote !in resident
              && (forall z :: 0 <= z < |resident| ==> ScoreOf(t, s.victim) <= ScoreOf(t, resident[z]))
              && (forall c :: 0 <= c < |t.heat| && c !in resident ==> ScoreOf(t, c) <= ScoreOf(t, s.promote))
              && ScoreOf(t, s.promote) > Threshold(ScoreOf(t, s.victim))
              && t.heat[s.promote] >= t.heat[s.victim] + 4
              && 4 <= s.gain == (ScoreOf(t, s.promote) - ScoreOf(t, s.victim)) / 256 < 0x8000_0000_0000_0000
  {
    if 1 <= |resident| < |t.heat| {
      ColdestIsLeast(t, resident, |resident|);
      HottestIsGreatest(t, resident, |t.heat|);
      NonResidentExists(t, resident);
      var z := Coldest(t, resident, |resident|);
      var h := Hottest(t, resident, |t.heat|).value;
      ScoreRange(t.heat[h], t.last[h], t.clock);
      ScoreRange(t.heat[resident[z]], t.last[resident[z]], t.clock);
    }
  }

  // ---------------------------------------------------------------- heat first, then recency

  /** The ticks since a chunk was last used, the clock having gone round at most once since. */
  function TicksSince(t: Table, c: int): nat
    requires t.Ok() && 0 <= c < |t.heat|
  {
    if t.last[c] <= t.clock then t.clock - t.last[c] else t.clock - t.last[c] + TWO32
  }

  /** Between equal counts the chunk used more recently scores higher; from 255 ticks on the
      age makes no difference. */
  lemma RecencyIff(heat: u32, last1: u32, last2: u32, clock: u32)
    ensures var age1 := if last1 <= clock then clock - last1 else clock - last1 + TWO32;
            var age2 := if last2 <= clock then clock - last2 else clock - last2 + TWO32;
            LfruScore(heat, last1, clock) > LfruScore(heat, last2, clock) <==> age1 < age2 && age1 < 255
  {
  }

  /** Scores are ordered by the count and then by the recency. */
  lemma ScoreOrder(t: Table, c: int, d: int)
    requires t.Ok() && 0 <= c < |t.heat| && 0 <= d < |t.heat|
    ensures ScoreOf(t, c) > ScoreOf(t, d) <==>
      t.heat[c] > t.heat[d] ||
      (t.heat[c] == t.heat[d] && TicksSince(t, c) < TicksSince(t, d) && TicksSince(t, c) < 255)
  {
    if t.heat[c] == t.heat[d] {
      RecencyIff(t.heat[c], t.last[c], t.last[d], t.clock);
    } else {
      ScoreRange(t.heat[c], t.last[c], t.clock);
      ScoreRange(t.heat[d], t.last[d], t.clock);
    }
  }

  /** No resident was used less often than the one demoted, and of those used as often none is
      older, up to 255 ticks; no non-resident was used more often than the one promoted, and
      of those used as often none is younger, up to 255 ticks. */
  lemma PickByAge(t: Table, resident: seq<int>)
    requires ValidIds(t, resident) && Pick(t, resident).Some?
    ensures var s := Pick(t, resident).value;
            && 0 <= s.victim < |t.heat| && s.victim in resident
            && 0 <= s.promote < |t.heat| && s.promote !in resident
            && (forall z :: 0 <= z < |resident| ==>
                  t.heat[resident[z]] > t.heat[s.victim] ||
                  (t.heat[resident[z]] == t.heat[s.victim]
                   && (TicksSince(t, resident[z]) <= TicksSince(t, s.victim) || TicksSince(t, s.victim) >= 255)))
            && (forall c :: 0 <= c < |t.heat| && c !in resident ==>
                  t.heat[c] < t.heat[s.promote] ||
                  (t.heat[c] == t.heat[s.promote]
                   && (TicksSince(t, c) >= TicksSince(t, s.promote) || TicksSince(t, c) >= 255)))
  {
    PickSpec(t, resident);
    var s := Pick(t, resident).value;
    forall z | 0 <= z < |resident| { ScoreOrder(t, s.victim, resident[z]); }
    forall c | 0 <= c < |t.heat| && c !in resident { ScoreOrder(t, c, s.promote); }
  }

  /** There is a swap exactly if some non-resident scores more than five quarters of some
      resident's score and four counts: the gate, without rounding. */
  lemma SwapIff(t: Table, resident: seq<int>)
    requires ValidIds(t, resident) && 1 <= |resident| < |t.heat|
    ensures Pick(t, resident).Some? <==>
      exists c, z :: 0 <= c < |t.heat| && c !in resident && 0 <= z < |resident|
                     && 4 * ScoreOf(t, c) > 5 * ScoreOf(t, resident[z]) + 4 * 1024
  {
    PickSpec(t, resident);
    if Pick(t, resident).Some? {
      var s := Pick(t, resident).value;
      assert 4 * ScoreOf(t, s.promote) > 5 * ScoreOf(t, resident[s.slot]) + 4 * 1024;
    }
  }
}
