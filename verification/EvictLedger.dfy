/** Runs of the per-tier eviction controller of gb_evict_policy.py, over all tiers at once:
    nothing tracked is lost or repeated, and when an item is tracked in one tier only. */
module EvictLedger {
  import opened Basics
  import opened EvictSpec

  /** The calls of the controller.  A tier is the one the call resolves to, a bucket is the
      item's priority at that moment, and an eviction carries snapshots of the live fields,
      so changes to them between calls are covered. */
  datatype Op<+E> =
    | Schedule(item: E, tier: string, bucket: int, first: bool)
    | Evict(tier: string, used: map<E, real>, priorities: map<E, int>)
    | Forget(item: E, tier: string, bucket: int)
    | Retier(item: E, source: string, target: string, bucket: int, first: bool)

  type Tiers<+E> = map<string, seq<Track<E>>>

  ghost function At<E>(m: Tiers<E>, tier: string): seq<Track<E>> {
    if tier in m then m[tier] else []
  }

  ghost predicate Same<E>(m: Tiers<E>, n: Tiers<E>) {
    forall t :: At(m, t) == At(n, t)
  }

  ghost function Next<E>(m: Tiers<E>, op: Op<E>): Tiers<E>
    decreases op.Retier?
  {
    match op
    case Schedule(item, tier, bucket, first) => m[tier := AfterPush(At(m, tier), Track(item, bucket, first))]
    case Evict(tier, used, priorities) => m[tier := AfterPop(At(m, tier), used, priorities)]
    case Forget(item, tier, bucket) => m[tier := AfterForget(At(m, tier), item, bucket)]
    case Retier(item, source, target, bucket, first) =>
      Next(Next(m, Forget(item, source, bucket)), Schedule(item, target, bucket, first))
  }

  lemma SameUpdate<E>(m: Tiers<E>, n: Tiers<E>, tier: string, ts: seq<Track<E>>)
    requires Same(m, n)
    ensures Same(m[tier := ts], n[tier := ts])
  {
    var a, b := m[tier := ts], n[tier := ts];
    forall t ensures At(a, t) == At(b, t) {
      assert At(m, t) == At(n, t);
    }
  }

  /** Tiers without tracks do not matter. */
  lemma SameNext<E>(m: Tiers<E>, n: Tiers<E>, op: Op<E>)
    requires Same(m, n)
    ensures Same(Next(m, op), Next(n, op))
    decreases op.Retier?
  {
    if op.Retier? {
      var forget := Forget(op.item, op.source, op.bucket);
      SameNext(m, n, forget);
      SameNext(Next(m, forget), Next(n, forget), Schedule(op.item, op.target, op.bucket, op.first));
    } else {
      assert At(m, op.tier) == At(n, op.tier);
      SameUpdate(m, n, op.tier, At(Next(n, op), op.tier));
    }
  }

  // ---------------------------------------------------------------- conservation

  /** What is tracked, the pushes that were accepted, and what has left, tier by tier. */
  datatype Ledger<+E> = Ledger(tracked: Tiers<E>, accepted: Tiers<E>, gone: Tiers<E>)

  /** The tracks of one item in one bucket. */
  ghost function Matching<E>(ts: seq<Track<E>>, item: E, bucket: int): seq<Track<E>> {
    if ts == [] then []
    else
      var n := |ts| - 1;
      Matching(ts[..n], item, bucket) + if IsTrack(ts[n], item, bucket) then [ts[n]] else []
  }

  /** The tracks that one call adds to a tier ... */
  ghost function Arrivals<E>(m: Tiers<E>, op: Op<E>, tier: string): seq<Track<E>> {
    match op
    case Schedule(item, target, bucket, first) =>
      if tier == target && !Tracks(At(m, tier), item, bucket) then [Track(item, bucket, first)] else []
    case Retier(item, source, target, bucket, first) =>
      if tier == target && (source == target || !Tracks(At(m, tier), item, bucket)) then [Track(item, bucket, first)]
      else []
    case _ => []
  }

  /** ... and those it takes out. */
  ghost function Departures<E>(m: Tiers<E>, op: Op<E>, tier: string): seq<Track<E>> {
    match op
    case Schedule(_, _, _, _) => []
    case Evict(source, used, priorities) =>
      var r := Popped(At(m, tier), used, priorities);
      if tier == source && r.Ok? then Matching(At(m, tier), r.value, Live(priorities, r.value)) else []
    case Forget(item, source, bucket) => if tier == source then Matching(At(m, tier), item, bucket) else []
    case Retier(item, source, _, bucket, _) => if tier == source then Matching(At(m, tier), item, bucket) else []
  }

  ghost function Touched<E>(op: Op<E>): set<string> {
    match op
    case Retier(_, source, target, _, _) => {source, target}
    case _ => {op.tier}
  }

  ghost function Do<E>(l: Ledger<E>, op: Op<E>): Ledger<E> {
    Ledger(Next(l.tracked, op),
           l.accepted + (map t | t in Touched(op) :: At(l.accepted, t) + Arrivals(l.tracked, op, t)),
           l.gone + (map t | t in Touched(op) :: At(l.gone, t) + Departures(l.tracked, op, t)))
  }

  ghost predicate Balanced<E>(l: Ledger<E>) {
    forall t :: TierBalanced(l, t)
  }

  ghost predicate TierBalanced<E>(l: Ledger<E>, t: string) {
    && NoDup(At(l.tracked, t))
    && multiset(At(l.accepted, t)) == multiset(At(l.tracked, t)) + multiset(At(l.gone, t))
  }

  lemma {:induction false} WithoutMembers<E>(ts: seq<Track<E>>, item: E, bucket: int, x: Track<E>)
    ensures x in Without(ts, item, bucket) <==> x in ts && !IsTrack(x, item, bucket)
  {
    if ts != [] {
      var n := |ts| - 1;
      assert ts == ts[..n] + [ts[n]];
      WithoutMembers(ts[..n], item, bucket, x);
    }
  }

  /** Removing splits a tier in two. */
  lemma {:induction false} WithoutSplits<E>(ts: seq<Track<E>>, item: E, bucket: int)
    ensures multiset(ts) == multiset(Without(ts, item, bucket)) + multiset(Matching(ts, item, bucket))
  {
    if ts != [] {
      var n := |ts| - 1;
      assert ts == ts[..n] + [ts[n]];
      WithoutSplits(ts[..n], item, bucket);
    }
  }

  lemma {:induction false} MatchingAbsent<E>(ts: seq<Track<E>>, item: E, bucket: int)
    requires forall k :: 0 <= k < |ts| ==> !IsTrack(ts[k], item, bucket)
    ensures Matching(ts, item, bucket) == [] && Without(ts, item, bucket) == ts
  {
    if ts != [] {
      MatchingAbsent(ts[..|ts| - 1], item, bucket);
    }
  }

  lemma ForgetSplits<E>(ts: seq<Track<E>>, item: E, bucket: int)
    requires NoDup(ts)
    ensures AfterForget(ts, item, bucket) == Without(ts, item, bucket)
    ensures NoDup(AfterForget(ts, item, bucket)) && !Tracks(AfterForget(ts, item, bucket), item, bucket)
    ensures multiset(ts) == multiset(AfterForget(ts, item, bucket)) + multiset(Matching(ts, item, bucket))
  {
    WithoutSplits(ts, item, bucket);
    if Tracks(ts, item, bucket) {
      var k :| 0 <= k < |ts| && IsTrack(ts[k], item, bucket);
      WithoutKeeps(ts, k);
    } else {
      assert forall k :: 0 <= k < |ts| ==> !IsTrack(ts[k], item, bucket);
      MatchingAbsent(ts, item, bucket);
    }
  }

  lemma PushKeepsNoDup<E>(ts: seq<Track<E>>, t: Track<E>)
    requires NoDup(ts)
    ensures NoDup(AfterPush(ts, t))
  {
    if !Tracks(ts, t.item, t.bucket) {
      assert forall k :: 0 <= k < |ts| ==> !IsTrack(ts[k], t.item, t.bucket);
    }
  }

  lemma RetierAt<E>(m: Tiers<E>, item: E, source: string, target: string, bucket: int, first: bool, t: string)
    ensures var left := if t == source then AfterForget(At(m, t), item, bucket) else At(m, t);
            At(Next(m, Retier(item, source, target, bucket, first)), t)
            == if t == target then AfterPush(left, Track(item, bucket, first)) else left
  {
    var n := Next(m, Forget(item, source, bucket));
    assert n == m[source := AfterForget(At(m, source), item, bucket)];
  }

  lemma DoAccepted<E>(l: Ledger<E>, op: Op<E>, t: string)
    ensures At(Do(l, op).accepted, t) == At(l.accepted, t) + Arrivals(l.tracked, op, t)
  {
    if t !in Touched(op) { assert Arrivals(l.tracked, op, t) == []; }
  }

  lemma DoGone<E>(l: Ledger<E>, op: Op<E>, t: string)
    ensures At(Do(l, op).gone, t) == At(l.gone, t) + Departures(l.tracked, op, t)
  {
    if t !in Touched(op) { assert Departures(l.tracked, op, t) == []; }
  }

  /** Re-tiering an item tracked under its priority in the named tier only: it leaves that
      tier, arrives last in the other, and every other track stays where it was. */
  lemma RetierMoves<E>(m: Tiers<E>, source: string, target: string, k: nat, first: bool)
    requires source != target && NoDup(At(m, source)) && k < |At(m, source)|
    requires !Tracks(At(m, target), At(m, source)[k].item, At(m, source)[k].bucket)
    ensures var from, x := At(m, source), At(m, source)[k];
            var n := Next(m, Retier(x.item, source, target, x.bucket, first));
            && At(n, source) == from[..k] + from[k + 1..]
            && At(n, target) == At(m, target) + [Track(x.item, x.bucket, first)]
            && forall t :: t != source && t != target ==> At(n, t) == At(m, t)
  {
    var from, x := At(m, source), At(m, source)[k];
    assert IsTrack(x, x.item, x.bucket);
    WithoutCuts(from, k);
    forall t { RetierAt(m, x.item, source, target, x.bucket, first, t); }
  }

  ghost predicate StepBalanced<E>(m: Tiers<E>, op: Op<E>, t: string) {
    && NoDup(At(Next(m, op), t))
    && multiset(At(m, t)) + multiset(Arrivals(m, op, t))
       == multiset(At(Next(m, op), t)) + multiset(Departures(m, op, t))
  }

  lemma PushBalances<E>(m: Tiers<E>, item: E, tier: string, bucket: int, first: bool, t: string)
    requires NoDup(At(m, t))
    ensures StepBalanced(m, Schedule(item, tier, bucket, first), t)
  {
    var op := Schedule(item, tier, bucket, first);
    PushKeepsNoDup(At(m, t), Track(item, bucket, first));
    assert At(Next(m, op), t) == At(m, t) + Arrivals(m, op, t);
  }

  lemma PopBalances<E>(m: Tiers<E>, tier: string, used: map<E, real>, priorities: map<E, int>, t: string)
    requires NoDup(At(m, t))
    ensures StepBalanced(m, Evict(tier, used, priorities), t)
  {
    if t == tier {
      PopSplits(At(m, t), used, priorities);
      assert At(Next(m, Evict(tier, used, priorities)), t) == AfterPop(At(m, t), used, priorities);
    }
  }

  lemma PopSplits<E>(ts: seq<Track<E>>, used: map<E, real>, priorities: map<E, int>)
    requires NoDup(ts)
    ensures var r, rest := Popped(ts, used, priorities), AfterPop(ts, used, priorities);
            && NoDup(rest)
            && (r.Ok? ==> multiset(ts) == multiset(rest) + multiset(Matching(ts, r.value, Live(priorities, r.value))))
  {
    var r := Popped(ts, used, priorities);
    if r.Ok? { ForgetSplits(ts, r.value, Live(priorities, r.value)); }
  }

  lemma RetierBalances<E>(m: Tiers<E>, item: E, source: string, target: string, bucket: int, first: bool, t: string)
    requires NoDup(At(m, t))
    ensures StepBalanced(m, Retier(item, source, target, bucket, first), t)
  {
    RetierAt(m, item, source, target, bucket, first, t);
    ForgetSplits(At(m, t), item, bucket);
    PushKeepsNoDup(At(m, t), Track(item, bucket, first));
    PushKeepsNoDup(AfterForget(At(m, t), item, bucket), Track(item, bucket, first));
  }

  lemma ForgetBalances<E>(m: Tiers<E>, item: E, tier: string, bucket: int, t: string)
    requires NoDup(At(m, t))
    ensures StepBalanced(m, Forget(item, tier, bucket), t)
  {
    if t == tier {
      ForgetSplits(At(m, t), item, bucket);
      assert At(Next(m, Forget(item, tier, bucket)), t) == AfterForget(At(m, t), item, bucket);
    }
  }

  /** One call, one tier: what was there and what arrived is what is there and what left. */
  lemma StepBalances<E>(m: Tiers<E>, op: Op<E>, t: string)
    requires NoDup(At(m, t))
    ensures StepBalanced(m, op, t)
  {
    match op {
      case Schedule(item, tier, bucket, first) => PushBalances(m, item, tier, bucket, first, t);
      case Evict(tier, used, priorities) => PopBalances(m, tier, used, priorities, t);
      case Forget(item, tier, bucket) => ForgetBalances(m, item, tier, bucket, t);
      case Retier(item, source, target, bucket, first) => RetierBalances(m, item, source, target, bucket, first, t);
    }
  }

  lemma DoBalances<E>(l: Ledger<E>, op: Op<E>)
    requires Balanced(l)
    ensures Balanced(Do(l, op))
  {
    forall t ensures TierBalanced(Do(l, op), t) {
      assert TierBalanced(l, t);
      StepBalances(l.tracked, op, t);
      DoAccepted(l, op, t);
      DoGone(l, op, t);
    }
  }

  ghost function Run<E>(l: Ledger<E>, ops: seq<Op<E>>): Ledger<E>
    decreases |ops|
  {
    if ops == [] then l else Run(Do(l, ops[0]), ops[1..])
  }

  /** Over any run of schedules, evictions, removals and re-tierings, in every tier: what
      was accepted is what is tracked and what has left, nothing lost and nothing twice. */
  lemma {:induction false} RunBalances<E>(l: Ledger<E>, ops: seq<Op<E>>)
    requires Balanced(l)
    ensures Balanced(Run(l, ops))
    decreases |ops|
  {
    if ops != [] {
      DoBalances(l, ops[0]);
      RunBalances(Do(l, ops[0]), ops[1..]);
    }
  }

  // ---------------------------------------------------------------- one tier for each item

  /** Where every track sits. */
  ghost function Places<E>(m: Tiers<E>): set<(string, Track<E>)> {
    set t, x | t in m && x in m[t] :: (t, x)
  }

  /** No item has two tracks, in one tier or in two. */
  ghost predicate Once<E>(m: Tiers<E>) {
    (forall t :: NoDup(At(m, t))) && OncePlaces(Places(m))
  }

  ghost predicate OncePlaces<E>(places: set<(string, Track<E>)>) {
    forall p, q | p in places && q in places && p.1.item == q.1.item :: p.0 == q.0 && p.1.bucket == q.1.bucket
  }

  /** The item is tracked nowhere but in this bucket of these tiers. */
  ghost predicate OnlyIn<E>(places: set<(string, Track<E>)>, item: E, tiers: set<string>, bucket: int) {
    forall p | p in places && p.1.item == item :: p.0 in tiers && p.1.bucket == bucket
  }

  /** What a call must know about the item it pushes: a schedule, that it is tracked nowhere
      but where it goes; a re-tiering, nowhere but where it says or where it goes. */
  ghost predicate Named<E>(m: Tiers<E>, op: Op<E>) {
    match op
    case Schedule(item, tier, bucket, _) => OnlyIn(Places(m), item, {tier}, bucket)
    case Retier(item, source, target, bucket, _) => OnlyIn(Places(m), item, {source, target}, bucket)
    case _ => true
  }

  lemma InPlaces<E>(m: Tiers<E>, t: string, x: Track<E>)
    ensures (t, x) in Places(m) <==> x in At(m, t)
  {
  }

  /** The places that a removal leaves. */
  ghost function Kept<E>(places: set<(string, Track<E>)>, item: E, tier: string, bucket: int)
    : set<(string, Track<E>)>
  {
    set p | p in places && !(p.0 == tier && IsTrack(p.1, item, bucket))
  }

  lemma ForgottenAt<E>(m: Tiers<E>, item: E, tier: string, bucket: int, t: string, x: Track<E>)
    ensures x in At(Next(m, Forget(item, tier, bucket)), t)
            <==> x in At(m, t) && !(t == tier && IsTrack(x, item, bucket))
  {
    if t == tier {
      ForgetMembers(At(m, t), item, bucket, x);
      assert At(Next(m, Forget(item, tier, bucket)), t) == AfterForget(At(m, t), item, bucket);
    }
  }

  lemma ForgetMembers<E>(ts: seq<Track<E>>, item: E, bucket: int, x: Track<E>)
    ensures x in AfterForget(ts, item, bucket) <==> x in ts && !IsTrack(x, item, bucket)
  {
    WithoutMembers(ts, item, bucket, x);
    if x in ts && IsTrack(x, item, bucket) {
      var k :| 0 <= k < |ts| && ts[k] == x;
      assert IsTrack(ts[k], item, bucket);
    }
  }

  lemma ForgetPlaces<E>(m: Tiers<E>, item: E, tier: string, bucket: int)
    ensures Places(Next(m, Forget(item, tier, bucket))) == Kept(Places(m), item, tier, bucket)
  {
    var n, kept := Next(m, Forget(item, tier, bucket)), Kept(Places(m), item, tier, bucket);
    forall p | p in Places(n) ensures p in kept {
      ForgetPlaceAt(m, item, tier, bucket, p);
    }
    forall p | p in kept ensures p in Places(n) {
      ForgetPlaceAt(m, item, tier, bucket, p);
    }
  }

  lemma ForgetPlaceAt<E>(m: Tiers<E>, item: E, tier: string, bucket: int, p: (string, Track<E>))
    ensures p in Places(Next(m, Forget(item, tier, bucket))) <==> p in Kept(Places(m), item, tier, bucket)
  {
    InPlaces(Next(m, Forget(item, tier, bucket)), p.0, p.1);
    InPlaces(m, p.0, p.1);
    ForgottenAt(m, item, tier, bucket, p.0, p.1);
    assert p == (p.0, p.1);
  }

  lemma SchedulePlaces<E>(m: Tiers<E>, item: E, tier: string, bucket: int, first: bool)
    requires !Tracks(At(m, tier), item, bucket)
    ensures Places(Next(m, Schedule(item, tier, bucket, first))) == Places(m) + {(tier, Track(item, bucket, first))}
  {
    var n := Next(m, Schedule(item, tier, bucket, first));
    forall p ensures p in Places(n) <==> p in Places(m) + {(tier, Track(item, bucket, first))} {
      InPlaces(n, p.0, p.1);
      InPlaces(m, p.0, p.1);
    }
  }

  lemma SamePlaces<E>(m: Tiers<E>, n: Tiers<E>)
    requires Same(m, n)
    ensures Places(m) == Places(n)
  {
    forall p ensures p in Places(m) <==> p in Places(n) {
      InPlaces(m, p.0, p.1);
      InPlaces(n, p.0, p.1);
    }
  }

  lemma StepNoDup<E>(m: Tiers<E>, op: Op<E>)
    requires forall t :: NoDup(At(m, t))
    ensures forall t :: NoDup(At(Next(m, op), t))
  {
    forall t ensures NoDup(At(Next(m, op), t)) {
      StepBalances(m, op, t);
    }
  }

  lemma ForgetOnce<E>(m: Tiers<E>, item: E, tier: string, bucket: int)
    requires Once(m)
    ensures Once(Next(m, Forget(item, tier, bucket)))
  {
    StepNoDup(m, Forget(item, tier, bucket));
    ForgetPlaces(m, item, tier, bucket);
  }

  lemma PopPlaces<E>(m: Tiers<E>, tier: string, used: map<E, real>, priorities: map<E, int>)
    ensures Places(Next(m, Evict(tier, used, priorities))) <= Places(m)
  {
    var r, n := Popped(At(m, tier), used, priorities), Next(m, Evict(tier, used, priorities));
    if r.Ok? {
      ForgetPlaces(m, r.value, tier, Live(priorities, r.value));
      assert n == Next(m, Forget(r.value, tier, Live(priorities, r.value)));
    } else {
      SamePlaces(m, n);
    }
  }

  /** Exactly when a schedule keeps each item in one place. */
  lemma ScheduleOnce<E>(m: Tiers<E>, item: E, tier: string, bucket: int, first: bool)
    requires Once(m)
    ensures Once(Next(m, Schedule(item, tier, bucket, first))) <==> OnlyIn(Places(m), item, {tier}, bucket)
  {
    var n, t := Next(m, Schedule(item, tier, bucket, first)), Track(item, bucket, first);
    StepNoDup(m, Schedule(item, tier, bucket, first));
    if Tracks(At(m, tier), item, bucket) {
      var k :| 0 <= k < |At(m, tier)| && IsTrack(At(m, tier)[k], item, bucket);
      InPlaces(m, tier, At(m, tier)[k]);
      SamePlaces(m, n);
    } else {
      SchedulePlaces(m, item, tier, bucket, first);
      AddedPlace(Places(m), tier, t);
    }
  }

  lemma AddedPlace<E>(places: set<(string, Track<E>)>, tier: string, t: Track<E>)
    requires OncePlaces(places)
    ensures OncePlaces(places + {(tier, t)}) <==> OnlyIn(places, t.item, {tier}, t.bucket)
  {
    assert (tier, t) in places + {(tier, t)};
  }

  /** Exactly when a re-tiering keeps each item in one place. */
  lemma RetierOnce<E>(m: Tiers<E>, item: E, source: string, target: string, bucket: int, first: bool)
    requires Once(m)
    ensures Once(Next(m, Retier(item, source, target, bucket, first)))
            <==> OnlyIn(Places(m), item, {source, target}, bucket)
  {
    var n := Next(m, Forget(item, source, bucket));
    ForgetOnce(m, item, source, bucket);
    ForgetPlaces(m, item, source, bucket);
    ScheduleOnce(n, item, target, bucket, first);
    KeptOnlyIn(Places(m), item, source, target, bucket);
  }

  lemma KeptOnlyIn<E>(places: set<(string, Track<E>)>, item: E, source: string, target: string, bucket: int)
    ensures OnlyIn(Kept(places, item, source, bucket), item, {target}, bucket)
            <==> OnlyIn(places, item, {source, target}, bucket)
  {
    var kept := Kept(places, item, source, bucket);
    forall p | p in places && p.1.item == item
      ensures p in kept <==> !(p.0 == source && p.1.bucket == bucket)
    {
    }
  }

  /** One call: exactly when each item stays in one place. */
  lemma StepOnce<E>(m: Tiers<E>, op: Op<E>)
    requires Once(m)
    ensures Once(Next(m, op)) <==> Named(m, op)
  {
    match op {
      case Schedule(item, tier, bucket, first) => ScheduleOnce(m, item, tier, bucket, first);
      case Evict(tier, used, priorities) => PopPlaces(m, tier, used, priorities); StepNoDup(m, op);
      case Forget(item, tier, bucket) => ForgetOnce(m, item, tier, bucket);
      case Retier(item, source, target, bucket, first) => RetierOnce(m, item, source, target, bucket, first);
    }
  }

  ghost predicate AlwaysOnce<E>(m: Tiers<E>, ops: seq<Op<E>>)
    decreases |ops|
  {
    Once(m) && (ops == [] || AlwaysOnce(Next(m, ops[0]), ops[1..]))
  }

  ghost predicate AlwaysNamed<E>(m: Tiers<E>, ops: seq<Op<E>>)
    decreases |ops|
  {
    ops == [] || (Named(m, ops[0]) && AlwaysNamed(Next(m, ops[0]), ops[1..]))
  }

  /** Over any run: each item is in at most one place throughout, if and only if every push
      and re-tiering names the place where the item is. */
  lemma {:induction false} OnePlaceIff<E>(m: Tiers<E>, ops: seq<Op<E>>)
    requires Once(m)
    ensures AlwaysOnce(m, ops) <==> AlwaysNamed(m, ops)
    decreases |ops|
  {
    if ops != [] {
      StepOnce(m, ops[0]);
      if Named(m, ops[0]) { OnePlaceIff(Next(m, ops[0]), ops[1..]); }
    }
  }

  // ---------------------------------------------------------------- a caller's rule

  /** A caller that keeps each item's tier as the code asks (`item.tier`), schedules there,
      re-tiers from there, and never changes a priority: a condition on the calls alone. */
  ghost predicate Disciplined<E>(home: map<E, string>, priority: E -> int, ops: seq<Op<E>>)
    decreases |ops|
  {
    ops == [] ||
    match ops[0]
    case Schedule(item, tier, bucket, _) =>
      && bucket == priority(item) && (item in home ==> home[item] == tier)
      && Disciplined(home[item := tier], priority, ops[1..])
    case Retier(item, source, target, bucket, _) =>
      && bucket == priority(item) && (item in home ==> home[item] == source)
      && Disciplined(home[item := target], priority, ops[1..])
    case _ => Disciplined(home, priority, ops[1..])
  }

  /** Every track sits in its item's home, under its item's priority. */
  ghost predicate AtHome<E>(places: set<(string, Track<E>)>, home: map<E, string>, priority: E -> int) {
    forall p | p in places :: p.1.item in home && home[p.1.item] == p.0 && p.1.bucket == priority(p.1.item)
  }

  /** What the last push into a tier adds. */
  lemma PushedPlaces<E>(m: Tiers<E>, item: E, tier: string, bucket: int, first: bool)
    ensures Places(Next(m, Schedule(item, tier, bucket, first))) <= Places(m) + {(tier, Track(item, bucket, first))}
  {
    var n := Next(m, Schedule(item, tier, bucket, first));
    if Tracks(At(m, tier), item, bucket) { SamePlaces(m, n); } else { SchedulePlaces(m, item, tier, bucket, first); }
  }

  lemma HomeSchedule<E>(m: Tiers<E>, home: map<E, string>, priority: E -> int, op: Op<E>)
    requires op.Schedule? && op.bucket == priority(op.item) && AtHome(Places(m), home, priority)
    requires OnlyIn(Places(m), op.item, {op.tier}, op.bucket)
    ensures AtHome(Places(Next(m, op)), home[op.item := op.tier], priority)
  {
    PushedPlaces(m, op.item, op.tier, op.bucket, op.first);
  }

  lemma HomeRetier<E>(m: Tiers<E>, home: map<E, string>, priority: E -> int, op: Op<E>)
    requires op.Retier? && op.bucket == priority(op.item) && AtHome(Places(m), home, priority)
    requires op.item in home ==> home[op.item] == op.source
    ensures OnlyIn(Places(m), op.item, {op.source, op.target}, op.bucket)
    ensures AtHome(Places(Next(m, op)), home[op.item := op.target], priority)
  {
    var n := Next(m, Forget(op.item, op.source, op.bucket));
    ForgetPlaces(m, op.item, op.source, op.bucket);
    HomeSchedule(n, home, priority, Schedule(op.item, op.target, op.bucket, op.first));
  }

  lemma HomeStep<E>(m: Tiers<E>, home: map<E, string>, priority: E -> int, ops: seq<Op<E>>)
    returns (next: map<E, string>)
    requires ops != [] && Once(m) && AtHome(Places(m), home, priority) && Disciplined(home, priority, ops)
    ensures Named(m, ops[0]) && AtHome(Places(Next(m, ops[0])), next, priority) && Disciplined(next, priority, ops[1..])
  {
    next := home;
    match ops[0] {
      case Schedule(item, tier, bucket, first) =>
        next := home[item := tier];
        HomeSchedule(m, home, priority, ops[0]);
      case Evict(tier, used, priorities) =>
        PopPlaces(m, tier, used, priorities);
      case Forget(item, tier, bucket) =>
        ForgetPlaces(m, item, tier, bucket);
      case Retier(item, source, target, bucket, first) =>
        next := home[item := target];
        HomeRetier(m, home, priority, ops[0]);
    }
  }

  /** With such a caller every item is tracked in at most one tier throughout, and once. */
  lemma {:induction false} DisciplinedRun<E>(m: Tiers<E>, home: map<E, string>, priority: E -> int, ops: seq<Op<E>>)
    requires Once(m) && AtHome(Places(m), home, priority) && Disciplined(home, priority, ops)
    ensures AlwaysOnce(m, ops)
    decreases |ops|
  {
    if ops != [] {
      var next := HomeStep(m, home, priority, ops);
      StepOnce(m, ops[0]);
      DisciplinedRun(Next(m, ops[0]), next, priority, ops[1..]);
    }
  }

  lemma {:induction false} EndsOnce<E>(l: Ledger<E>, ops: seq<Op<E>>)
    requires AlwaysOnce(l.tracked, ops)
    ensures Once(Run(l, ops).tracked)
    decreases |ops|
  {
    if ops != [] { EndsOnce(Do(l, ops[0]), ops[1..]); }
  }

  /** For such a caller of a new controller: nothing is lost or repeated in any tier, and every
      item is tracked in at most one tier, once, at every point of the run and at its end. */
  lemma FromStart<E>(priority: E -> int, ops: seq<Op<E>>)
    requires Disciplined(map[], priority, ops)
    ensures var end := Run(Ledger(map[], map[], map[]), ops);
            Balanced(end) && AlwaysOnce(map[], ops) && Once(end.tracked)
  {
    var l: Ledger<E> := Ledger(map[], map[], map[]);
    assert Balanced(l) && Once(l.tracked) && AtHome(Places(l.tracked), map[], priority);
    RunBalances(l, ops);
    DisciplinedRun(l.tracked, map[], priority, ops);
    EndsOnce(l, ops);
  }

  /** Both halves of the rule are needed.  A re-tiering that names a wrong tier leaves the
      item tracked in two tiers ... */
  lemma WrongTierDuplicates<E>(item: E, bucket: int)
    ensures var scheduled := Next(map[], Schedule(item, "gpu", bucket, false));
            var m := Next(scheduled, Retier(item, "disk", "ram", bucket, false));
            At(m, "gpu") == [Track(item, bucket, false)] && At(m, "ram") == [Track(item, bucket, false)]
  {
    var m := Next(map[], Schedule(item, "gpu", bucket, false));
    RetierAt(m, item, "disk", "ram", bucket, false, "gpu");
    RetierAt(m, item, "disk", "ram", bucket, false, "ram");
  }

  /** ... and so does one under a priority that has changed since the push. */
  lemma MovedPriorityDuplicates<E>(item: E, bucket: int, moved: int)
    requires bucket != moved
    ensures var scheduled := Next(map[], Schedule(item, "gpu", bucket, false));
            var m := Next(scheduled, Retier(item, "gpu", "ram", moved, false));
            At(m, "gpu") == [Track(item, bucket, false)] && At(m, "ram") == [Track(item, moved, false)]
  {
    var m := Next(map[], Schedule(item, "gpu", bucket, false));
    RetierAt(m, item, "gpu", "ram", moved, false, "gpu");
    RetierAt(m, item, "gpu", "ram", moved, false, "ram");
  }
}
