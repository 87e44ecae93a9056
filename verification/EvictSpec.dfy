/** What the eviction policies of gb_evict_policy.py select: one sequence of tracked items
    in push order, and the rule that picks the next victim from it. */
module EvictSpec {
  import opened Basics

  const PRIORITY_MIN := 0
  const PRIORITY_MAX := 100
  const PRIORITY_DEFAULT := 35

  /** `clamp_priority`. */
  function ClampPriority(priority: Option<int>): (r: int)
    ensures 0 <= r <= 100
    ensures priority.None? ==> r == 35
    ensures priority.Some? && priority.value < 0 ==> r == 0
    ensures priority.Some? && 0 <= priority.value <= 100 ==> r == priority.value
    ensures priority.Some? && priority.value > 100 ==> r == 100
  {
    match priority
    case None => PRIORITY_DEFAULT
    case Some(p) =>
      var capped := if p < PRIORITY_MAX then p else PRIORITY_MAX;
      if capped > PRIORITY_MIN then capped else PRIORITY_MIN
  }

  /** A tracked item: the bucket it was pushed into, and whether it jumps the queue. */
  datatype Track<+E> = Track(item: E, bucket: int, first: bool)

  /** An item's recency in a snapshot of the live `last_used` fields. */
  ghost function Age<E>(used: map<E, real>, e: E): real {
    if e in used then used[e] else 0.0
  }

  /** Evicted strictly earlier: lower bucket, then evict_first, then older. */
  ghost predicate Before<E>(a: Track<E>, b: Track<E>, used: map<E, real>) {
    || a.bucket < b.bucket
    || (a.bucket == b.bucket && a.first && !b.first)
    || (a.bucket == b.bucket && a.first == b.first && Age(used, a.item) < Age(used, b.item))
  }

  /** The next victim: the least track, the earliest push among equals. */
  ghost function Victim<E>(ts: seq<Track<E>>, used: map<E, real>): Track<E>
    requires ts != []
  {
    var n := |ts| - 1;
    if n == 0 then ts[0]
    else
      var m := Victim(ts[..n], used);
      if Before(ts[n], m, used) then ts[n] else m
  }

  /** Victim is the minimum by (bucket, evict_first, last_used, push order). */
  lemma {:induction false} VictimIsLeast<E>(ts: seq<Track<E>>, used: map<E, real>) returns (k: nat)
    requires ts != []
    ensures k < |ts| && Victim(ts, used) == ts[k]
    ensures forall j :: 0 <= j < k ==> Before(ts[k], ts[j], used)
    ensures forall j :: k < j < |ts| ==> !Before(ts[j], ts[k], used)
  {
    var n := |ts| - 1;
    if n == 0 {
      k := 0;
    } else {
      var m := VictimIsLeast(ts[..n], used);
      k := if Before(ts[n], ts[m], used) then n else m;
    }
  }

  /** Written out: the victim has the lowest priority; of those, it is evict_first if any is; of
      those, none was used longer ago; and of those, none was pushed before it. */
  lemma VictimWrittenOut<E>(ts: seq<Track<E>>, used: map<E, real>) returns (k: nat)
    requires ts != [] && forall j :: 0 <= j < |ts| ==> ts[j].item in used
    ensures k < |ts| && Victim(ts, used) == ts[k]
    ensures forall j :: 0 <= j < |ts| ==>
              || ts[j].bucket > ts[k].bucket
              || (ts[j].bucket == ts[k].bucket && !ts[j].first && ts[k].first)
              || (ts[j].bucket == ts[k].bucket && ts[j].first == ts[k].first
                  && (used[ts[j].item] > used[ts[k].item] || (used[ts[j].item] == used[ts[k].item] && j >= k)))
  {
    k := VictimIsLeast(ts, used);
  }

  // ---------------------------------------------------------------- buckets

  predicate InQueue<E>(t: Track<E>, bucket: int, first: bool) {
    t.bucket == bucket && t.first == first
  }

  /** The items of one bucket's queue, in push order. */
  ghost function Project<E>(ts: seq<Track<E>>, bucket: int, first: bool): seq<E> {
    if ts == [] then []
    else
      var n := |ts| - 1;
      Project(ts[..n], bucket, first) + if InQueue(ts[n], bucket, first) then [ts[n].item] else []
  }

  lemma {:induction false} ProjectMembers<E>(ts: seq<Track<E>>, bucket: int, first: bool, e: E)
    ensures e in Project(ts, bucket, first) <==> Track(e, bucket, first) in ts
  {
    if ts != [] {
      var n := |ts| - 1;
      ProjectMembers(ts[..n], bucket, first, e);
      assert ts == ts[..n] + [ts[n]];
    }
  }

  lemma {:induction false} ProjectEmpty<E>(ts: seq<Track<E>>, bucket: int, first: bool)
    ensures Project(ts, bucket, first) == [] <==> forall k :: 0 <= k < |ts| ==> !InQueue(ts[k], bucket, first)
  {
    if ts != [] { ProjectEmpty(ts[..|ts| - 1], bucket, first); }
  }

  lemma ProjectAppend<E>(ts: seq<Track<E>>, t: Track<E>, bucket: int, first: bool)
    ensures Project(ts + [t], bucket, first)
            == Project(ts, bucket, first) + if InQueue(t, bucket, first) then [t.item] else []
  {
    assert (ts + [t])[..|ts|] == ts;
  }

  /** Python's `min(s, key=last_used)`: the first of the least. */
  ghost function Oldest<E>(s: seq<E>, used: map<E, real>): E
    requires s != []
  {
    var n := |s| - 1;
    if n == 0 then s[0]
    else
      var m := Oldest(s[..n], used);
      if Age(used, s[n]) < Age(used, m) then s[n] else m
  }

  /** No item was used longer ago, and the first of those used as long ago is taken. */
  lemma {:induction false} OldestSpec<E>(s: seq<E>, used: map<E, real>) returns (k: nat)
    requires s != [] && forall j :: 0 <= j < |s| ==> s[j] in used
    ensures k < |s| && Oldest(s, used) == s[k]
    ensures forall j :: 0 <= j < |s| ==> used[s[k]] < used[s[j]] || (used[s[k]] == used[s[j]] && k <= j)
  {
    var n := |s| - 1;
    if n == 0 {
      k := 0;
    } else {
      k := OldestSpec(s[..n], used);
      if used[s[n]] < used[s[k]] { k := n; }
    }
  }

  lemma OldestAppend<E>(s: seq<E>, x: E, used: map<E, real>)
    ensures Oldest(s + [x], used)
            == if s == [] then x else if Age(used, x) < Age(used, Oldest(s, used)) then x else Oldest(s, used)
  {
    assert (s + [x])[..|s|] == s;
  }

  /** Looking into the victim's own queue gives the victim. */
  lemma {:induction false} VictimIsOldestOfQueue<E>(ts: seq<Track<E>>, used: map<E, real>)
    requires ts != []
    ensures var v := Victim(ts, used); var q := Project(ts, v.bucket, v.first);
            q != [] && v.item == Oldest(q, used)
  {
    var n := |ts| - 1;
    var v := Victim(ts, used);
    if n == 0 {
      assert ts[..0] == [];
    } else {
      var m := Victim(ts[..n], used);
      VictimIsOldestOfQueue(ts[..n], used);
      var q := Project(ts[..n], v.bucket, v.first);
      OldestAppend(q, ts[n].item, used);
      assert q + [] == q;
      if !InQueue(m, v.bucket, v.first) { QueueEmpty(ts[..n], used, ts[n]); }
    }
  }

  /** A track that beats the victim by bucket or flag has its queue to itself. */
  lemma QueueEmpty<E>(ts: seq<Track<E>>, used: map<E, real>, t: Track<E>)
    requires ts != [] && Before(t, Victim(ts, used), used)
    requires !InQueue(Victim(ts, used), t.bucket, t.first)
    ensures Project(ts, t.bucket, t.first) == []
  {
    var k := VictimIsLeast(ts, used);
    ProjectEmpty(ts, t.bucket, t.first);
  }

  /** The nested lookup is right: the lowest occupied bucket, its evict_first queue if it
      has one, and the oldest item there. */
  lemma VictimByBucket<E>(ts: seq<Track<E>>, used: map<E, real>, bucket: int)
    requires ts != []
    requires exists k :: 0 <= k < |ts| && ts[k].bucket == bucket
    requires forall k :: 0 <= k < |ts| ==> bucket <= ts[k].bucket
    ensures var q := if Project(ts, bucket, true) != [] then Project(ts, bucket, true) else Project(ts, bucket, false);
            q != [] && Victim(ts, used).item == Oldest(q, used)
  {
    var k := VictimIsLeast(ts, used);
    VictimIsOldestOfQueue(ts, used);
    ProjectEmpty(ts, bucket, true);
    assert ts[k].bucket == bucket;
  }

  ghost function Items<E>(ts: seq<Track<E>>): seq<E> {
    seq(|ts|, k requires 0 <= k < |ts| => ts[k].item)
  }

  lemma {:induction false} ProjectAll<E>(ts: seq<Track<E>>, bucket: int, first: bool)
    requires forall k :: 0 <= k < |ts| ==> InQueue(ts[k], bucket, first)
    ensures Project(ts, bucket, first) == Items(ts)
  {
    if ts != [] {
      ProjectAll(ts[..|ts| - 1], bucket, first);
      assert Items(ts) == Items(ts[..|ts| - 1]) + [ts[|ts| - 1].item];
    }
  }

  /** With every priority left at the default and no evict_first the victim is the plain
      least-recently-used item. */
  lemma DefaultIsPlainLru<E>(ts: seq<Track<E>>, used: map<E, real>)
    requires ts != []
    requires forall k :: 0 <= k < |ts| ==> InQueue(ts[k], PRIORITY_DEFAULT, false)
    ensures Victim(ts, used).item == Oldest(Items(ts), used)
  {
    var k := VictimIsLeast(ts, used);
    VictimIsOldestOfQueue(ts, used);
    ProjectAll(ts, PRIORITY_DEFAULT, false);
  }

  // ---------------------------------------------------------------- removal

  predicate IsTrack<E(==)>(t: Track<E>, item: E, bucket: int) {
    t.item == item && t.bucket == bucket
  }

  ghost predicate NoDup<E>(ts: seq<Track<E>>) {
    forall i, j :: 0 <= i < j < |ts| ==> !IsTrack(ts[i], ts[j].item, ts[j].bucket)
  }

  ghost predicate Tracks<E>(ts: seq<Track<E>>, item: E, bucket: int) {
    exists k :: 0 <= k < |ts| && IsTrack(ts[k], item, bucket)
  }

  /** The tracks without one item of one bucket. */
  ghost function Without<E>(ts: seq<Track<E>>, item: E, bucket: int): seq<Track<E>> {
    if ts == [] then []
    else
      var n := |ts| - 1;
      Without(ts[..n], item, bucket) + if IsTrack(ts[n], item, bucket) then [] else [ts[n]]
  }

  lemma {:induction false} WithoutAbsent<E>(ts: seq<Track<E>>, item: E, bucket: int)
    requires forall k :: 0 <= k < |ts| ==> !IsTrack(ts[k], item, bucket)
    ensures Without(ts, item, bucket) == ts
  {
    if ts != [] {
      WithoutAbsent(ts[..|ts| - 1], item, bucket);
    }
  }

  /** Removing takes out exactly the one track. */
  lemma {:induction false} WithoutCuts<E>(ts: seq<Track<E>>, k: nat)
    requires NoDup(ts) && k < |ts|
    ensures Without(ts, ts[k].item, ts[k].bucket) == ts[..k] + ts[k + 1..]
  {
    var n := |ts| - 1;
    if k == n {
      WithoutAbsent(ts[..n], ts[n].item, ts[n].bucket);
    } else {
      WithoutCuts(ts[..n], k);
      assert ts[..n][k + 1..] + [ts[n]] == ts[k + 1..];
    }
  }

  /** So it keeps the others, in order and without repetition. */
  lemma WithoutKeeps<E>(ts: seq<Track<E>>, k: nat)
    requires NoDup(ts) && k < |ts|
    ensures var rest := Without(ts, ts[k].item, ts[k].bucket);
            && NoDup(rest) && !Tracks(rest, ts[k].item, ts[k].bucket) && |rest| == |ts| - 1
            && multiset(ts) == multiset(rest) + multiset{ts[k]}
  {
    WithoutCuts(ts, k);
    assert ts == ts[..k] + [ts[k]] + ts[k + 1..];
  }

  /** A queue without one item. */
  ghost function Drop<E>(s: seq<E>, item: E): seq<E> {
    if s == [] then []
    else
      var n := |s| - 1;
      Drop(s[..n], item) + if s[n] == item then [] else [s[n]]
  }

  lemma DropAppend<E>(s: seq<E>, x: E, item: E)
    ensures Drop(s + [x], item) == Drop(s, item) + if x == item then [] else [x]
  {
    assert (s + [x])[..|s|] == s;
  }

  lemma {:induction false} ProjectWithout<E>(ts: seq<Track<E>>, item: E, bucket: int, b: int, first: bool)
    ensures Project(Without(ts, item, bucket), b, first)
            == if b == bucket then Drop(Project(ts, b, first), item) else Project(ts, b, first)
  {
    if ts != [] {
      var n := |ts| - 1;
      ProjectWithout(ts[..n], item, bucket, b, first);
      var rest, q := Without(ts[..n], item, bucket), Project(ts[..n], b, first);
      ProjectAppend(rest, ts[n], b, first);
      DropAppend(q, ts[n].item, item);
      assert rest + [] == rest;
      assert q + [] == q;
      if !InQueue(ts[n], b, first) || IsTrack(ts[n], item, bucket) {
        assert Project(Without(ts, item, bucket), b, first) == Project(rest, b, first);
      }
    }
  }

  // ---------------------------------------------------------------- draining

  lemma VictimRemoved<E>(ts: seq<Track<E>>, used: map<E, real>)
    requires ts != [] && NoDup(ts)
    ensures var v := Victim(ts, used); var rest := Without(ts, v.item, v.bucket);
            NoDup(rest) && |rest| == |ts| - 1 && multiset(ts) == multiset(rest) + multiset{v}
  {
    var k := VictimIsLeast(ts, used);
    WithoutKeeps(ts, k);
  }

  /** Evicting until nothing is left. */
  ghost function Drain<E>(ts: seq<Track<E>>, used: map<E, real>, n: nat): seq<Track<E>>
    requires |ts| == n && NoDup(ts)
    decreases n
  {
    if n == 0 then []
    else
      var v := Victim(ts, used);
      VictimRemoved(ts, used);
      [v] + Drain(Without(ts, v.item, v.bucket), used, n - 1)
  }

  ghost predicate Tied<E>(a: Track<E>, b: Track<E>, used: map<E, real>) {
    !Before(a, b, used) && !Before(b, a, used)
  }

  /** The tracks that tie with t, in push order. */
  ghost function Ties<E>(ts: seq<Track<E>>, t: Track<E>, used: map<E, real>): seq<Track<E>> {
    if ts == [] then [] else (if Tied(ts[0], t, used) then [ts[0]] else []) + Ties(ts[1..], t, used)
  }

  lemma {:induction false} TiesConcat<E>(a: seq<Track<E>>, b: seq<Track<E>>, t: Track<E>, used: map<E, real>)
    ensures Ties(a + b, t, used) == Ties(a, t, used) + Ties(b, t, used)
  {
    if a == [] {
      assert a + b == b;
    } else {
      assert (a + b)[1..] == a[1..] + b;
      TiesConcat(a[1..], b, t, used);
    }
  }

  lemma {:induction false} NoTies<E>(ts: seq<Track<E>>, v: Track<E>, t: Track<E>, used: map<E, real>)
    requires Tied(v, t, used) && forall j :: 0 <= j < |ts| ==> Before(v, ts[j], used)
    ensures Ties(ts, t, used) == []
  {
    if ts != [] { NoTies(ts[1..], v, t, used); }
  }

  lemma TiesThree<E>(a: seq<Track<E>>, b: seq<Track<E>>, c: seq<Track<E>>, t: Track<E>, used: map<E, real>)
    ensures Ties(a + b + c, t, used) == Ties(a, t, used) + Ties(b, t, used) + Ties(c, t, used)
  {
    TiesConcat(a + b, c, t, used);
    TiesConcat(a, b, t, used);
  }

  /** Taking a track out of the middle, when no earlier one ties with it, takes the first
      of its ties. */
  lemma TiesWithoutMiddle<E>(a: seq<Track<E>>, v: Track<E>, c: seq<Track<E>>, t: Track<E>, used: map<E, real>)
    requires forall j :: 0 <= j < |a| ==> Before(v, a[j], used)
    ensures Ties(a + [v] + c, t, used) == Ties([v], t, used) + Ties(a + c, t, used)
  {
    TiesThree(a, [v], c, t, used);
    TiesConcat(a, c, t, used);
    var x, y, z := Ties(a, t, used), Ties([v], t, used), Ties(c, t, used);
    assert [v][1..] == [];
    if Tied(v, t, used) { NoTies(a, v, t, used); }
    assert x == [] || y == [];
    assert x + y + z == y + (x + z);
  }

  lemma DrainStep<E>(ts: seq<Track<E>>, used: map<E, real>, n: nat) returns (a: seq<Track<E>>, v: Track<E>,
        c: seq<Track<E>>)
    requires NoDup(ts) && |ts| == n && n > 0
    ensures ts == a + [v] + c && NoDup(a + c) && |a + c| == n - 1
    ensures Drain(ts, used, n) == [v] + Drain(a + c, used, n - 1)
    ensures forall j :: 0 <= j < |a| ==> Before(v, a[j], used)
    ensures forall j :: 0 <= j < |c| ==> !Before(c[j], v, used)
  {
    var k := VictimIsLeast(ts, used);
    WithoutCuts(ts, k);
    WithoutKeeps(ts, k);
    a, v, c := ts[..k], ts[k], ts[k + 1..];
    MiddleOf(ts, k, c, used);
  }

  lemma MiddleOf<E>(ts: seq<Track<E>>, k: nat, c: seq<Track<E>>, used: map<E, real>)
    requires k < |ts| && c == ts[k + 1..]
    requires forall j :: k < j < |ts| ==> !Before(ts[j], ts[k], used)
    ensures ts == ts[..k] + [ts[k]] + c
    ensures forall j :: 0 <= j < |c| ==> !Before(c[j], ts[k], used)
  {
    forall j | 0 <= j < |c| ensures !Before(c[j], ts[k], used) {
      assert c[j] == ts[k + 1 + j];
    }
  }

  /** Draining loses and repeats nothing ... */
  lemma {:induction false} DrainPermutes<E>(ts: seq<Track<E>>, used: map<E, real>, n: nat)
    requires NoDup(ts) && |ts| == n
    ensures multiset(Drain(ts, used, n)) == multiset(ts)
    decreases n
  {
    if n > 0 {
      var a, v, c := DrainStep(ts, used, n);
      DrainPermutes(a + c, used, n - 1);
    }
  }

  /** ... evicts in order ... */
  lemma {:induction false} DrainOrdered<E>(ts: seq<Track<E>>, used: map<E, real>, n: nat)
    requires NoDup(ts) && |ts| == n
    ensures InOrder(Drain(ts, used, n), used)
    decreases n
  {
    if n > 0 {
      var a, v, c := DrainStep(ts, used, n);
      DrainOrdered(a + c, used, n - 1);
      DrainPermutes(a + c, used, n - 1);
      var d := Drain(a + c, used, n - 1);
      forall j | 0 <= j < |d| ensures !Before(d[j], v, used) {
        assert d[j] in multiset(d) && d[j] in a + c;
      }
      OrderFront(v, d, used);
    }
  }

  /** ... and keeps push order among ties: it is the stable sort of the tracked items. */
  lemma {:induction false} DrainStable<E>(ts: seq<Track<E>>, used: map<E, real>, t: Track<E>, n: nat)
    requires NoDup(ts) && |ts| == n
    ensures Ties(Drain(ts, used, n), t, used) == Ties(ts, t, used)
    decreases n
  {
    if n > 0 {
      var a, v, c := DrainStep(ts, used, n);
      DrainStable(a + c, used, t, n - 1);
      TiesWithoutMiddle(a, v, c, t, used);
      TiesConcat([v], Drain(a + c, used, n - 1), t, used);
    }
  }

  ghost predicate InOrder<E>(d: seq<Track<E>>, used: map<E, real>) {
    forall i, j :: 0 <= i < j < |d| ==> !Before(d[j], d[i], used)
  }

  lemma OrderFront<E>(v: Track<E>, d: seq<Track<E>>, used: map<E, real>)
    requires InOrder(d, used) && forall j :: 0 <= j < |d| ==> !Before(d[j], v, used)
    ensures InOrder([v] + d, used)
  {
  }

  // ---------------------------------------------------------------- push, forget and pop

  datatype Error = KeyError | IndexError
  datatype Result<+T> = Ok(value: T) | Err(error: Error)

  /** What is tracked after a push: a second push into the same bucket changes nothing. */
  ghost function AfterPush<E>(ts: seq<Track<E>>, t: Track<E>): seq<Track<E>> {
    if Tracks(ts, t.item, t.bucket) then ts else ts + [t]
  }

  /** ... and after a removal that tolerates an untracked item. */
  ghost function AfterForget<E>(ts: seq<Track<E>>, item: E, bucket: int): seq<Track<E>> {
    if Tracks(ts, item, bucket) then Without(ts, item, bucket) else ts
  }

  /** An item's present priority in a snapshot of the live `priority` fields. */
  ghost function Live<E>(priorities: map<E, int>, e: E): int {
    if e in priorities then priorities[e] else PRIORITY_DEFAULT
  }

  /** What `pop` answers: the victim is looked up again under its present priority. */
  ghost function Popped<E>(ts: seq<Track<E>>, used: map<E, real>, priorities: map<E, int>): Result<E> {
    if ts == [] then Err(IndexError)
    else
      var v := Victim(ts, used).item;
      if Tracks(ts, v, Live(priorities, v)) then Ok(v) else Err(KeyError)
  }

  ghost function AfterPop<E>(ts: seq<Track<E>>, used: map<E, real>, priorities: map<E, int>): seq<Track<E>> {
    var r := Popped(ts, used, priorities);
    if r.Ok? then Without(ts, r.value, Live(priorities, r.value)) else ts
  }

  /** Pops in a row, each with its own snapshots: the answers, and what stays tracked. */
  ghost function Pops<E>(ts: seq<Track<E>>, calls: seq<(map<E, real>, map<E, int>)>)
    : (seq<Result<E>>, seq<Track<E>>)
    decreases |calls|
  {
    if calls == [] then ([], ts)
    else
      var later := Pops(AfterPop(ts, calls[0].0, calls[0].1), calls[1..]);
      ([Popped(ts, calls[0].0, calls[0].1)] + later.0, later.1)
  }

  ghost predicate OnceEach<E>(ts: seq<Track<E>>) {
    forall i, j :: 0 <= i < j < |ts| ==> ts[i].item != ts[j].item
  }

  /** Exactly when a pop raises KeyError although the tier tracks something: the victim's
      priority has moved, and no other track of the item sits in the present bucket.  For an
      item tracked once the first half decides. */
  lemma StalePriorityFails<E>(ts: seq<Track<E>>, used: map<E, real>, priorities: map<E, int>)
    requires ts != []
    ensures var v := Victim(ts, used); var p := Live(priorities, v.item);
            && (Popped(ts, used, priorities) == Err(KeyError) <==>
                p != v.bucket && forall k :: 0 <= k < |ts| && ts[k].item == v.item && ts[k] != v ==> ts[k].bucket != p)
            && (OnceEach(ts) ==> (Popped(ts, used, priorities) == Err(KeyError) <==> p != v.bucket))
  {
    var k := VictimIsLeast(ts, used);
    var p := Live(priorities, ts[k].item);
    if p == ts[k].bucket { assert IsTrack(ts[k], ts[k].item, p); }
    if Tracks(ts, ts[k].item, p) {
      var j :| 0 <= j < |ts| && IsTrack(ts[j], ts[k].item, p);
      assert OnceEach(ts) ==> j == k;
    } else {
      assert forall j :: 0 <= j < |ts| ==> !IsTrack(ts[j], ts[k].item, p);
    }
  }

  /** Such a tier evicts nothing more: as long as the item stays the victim and keeps that
      priority, every pop raises, and what is tracked never changes. */
  lemma {:induction false} StaleTierIsStuck<E>(ts: seq<Track<E>>, v: E, p: int,
        calls: seq<(map<E, real>, map<E, int>)>)
    requires ts != [] && !Tracks(ts, v, p)
    requires forall k :: 0 <= k < |calls| ==> Victim(ts, calls[k].0).item == v && Live(calls[k].1, v) == p
    ensures Pops(ts, calls).1 == ts && |Pops(ts, calls).0| == |calls|
    ensures forall k :: 0 <= k < |calls| ==> Pops(ts, calls).0[k] == Err(KeyError)
    decreases |calls|
  {
    if calls != [] {
      assert AfterPop(ts, calls[0].0, calls[0].1) == ts;
      StaleTierIsStuck(ts, v, p, calls[1..]);
    }
  }

  /** While nobody changes a priority, a pop never fails on a tier that tracks something,
      and takes exactly the victim. */
  lemma FixedPriorityEvicts<E>(ts: seq<Track<E>>, used: map<E, real>, priorities: map<E, int>)
    requires ts != [] && NoDup(ts)
    requires forall k :: 0 <= k < |ts| ==> ts[k].bucket == Live(priorities, ts[k].item)
    ensures var v := Victim(ts, used);
            && Popped(ts, used, priorities) == Ok(v.item)
            && multiset(ts) == multiset(AfterPop(ts, used, priorities)) + multiset{v}
  {
    var k := VictimIsLeast(ts, used);
    assert IsTrack(ts[k], ts[k].item, ts[k].bucket);
    VictimRemoved(ts, used);
  }
}
