/** The nested eviction policies of gb_evict_policy.py, proved against EvictSpec: an LRU
    policy per priority, a prioritized policy per tier, and one controller. */
module EvictPolicy {
  import opened Basics
  import opened EvictSpec

  /** What a policy needs from a thing it may evict; compared by identity. */
  class Entry {
    const name: string
    var tier: string
    var lastUsed: real
    var priority: int

    constructor (name: string, tier: string, lastUsed: real, priority: int)
      ensures this.name == name && this.tier == tier && this.lastUsed == lastUsed && this.priority == priority
    {
      this.name, this.tier, this.lastUsed, this.priority := name, tier, lastUsed, priority;
    }
  }

  ghost function EntriesOf(ts: seq<Track<Entry>>): set<Entry> {
    set t | t in ts :: t.item
  }

  /** The live `last_used` fields. */
  ghost function LastUsed(es: set<Entry>): map<Entry, real>
    reads es
  {
    map e | e in es :: e.lastUsed
  }

  /** The live `priority` fields. */
  ghost function Priorities(es: set<Entry>): map<Entry, int>
    reads es
  {
    map e | e in es :: e.priority
  }

  method MinLastUsed(s: seq<Entry>, ghost used: map<Entry, real>) returns (m: Entry)
    requires s != [] && forall e :: e in s ==> e in used && used[e] == e.lastUsed
    ensures m == Oldest(s, used)
  {
    m := s[0];
    for k := 1 to |s|
      invariant m == Oldest(s[..k], used) && m in s
    {
      assert s[..k + 1][..k] == s[..k];
      if s[k].lastUsed < m.lastUsed { m := s[k]; }
    }
    assert s[..|s|] == s;
  }

  /** The two lists of an LRU policy, by value. */
  datatype Queue = Queue(items: seq<Entry>, evictFirst: seq<Entry>) {
    predicate Has(item: Entry) { item in items || item in evictFirst }
    predicate Empty() { items == [] && evictFirst == [] }
  }

  function Pushed(q: Queue, item: Entry, first: bool): Queue {
    if q.Has(item) then q
    else if first then q.(evictFirst := q.evictFirst + [item])
    else q.(items := q.items + [item])
  }

  /** `bucket.pop(idx)` at the first occurrence. */
  function Cut(s: seq<Entry>, item: Entry): seq<Entry> {
    if s == [] then [] else if s[0] == item then s[1..] else [s[0]] + Cut(s[1..], item)
  }

  function Removed(q: Queue, item: Entry): Queue {
    if item in q.evictFirst then q.(evictFirst := Cut(q.evictFirst, item)) else q.(items := Cut(q.items, item))
  }

  /** `peek` of an LRU policy. */
  ghost function Front(q: Queue, used: map<Entry, real>): Option<Entry> {
    if q.evictFirst != [] then Some(Oldest(q.evictFirst, used))
    else if q.items != [] then Some(Oldest(q.items, used))
    else None
  }

  lemma {:induction false} CutAt(s: seq<Entry>, k: nat, item: Entry)
    requires k <= |s| && item !in s[..k] && (k < |s| ==> s[k] == item)
    ensures Cut(s, item) == if k < |s| then s[..k] + s[k + 1..] else s
  {
    if k > 0 {
      assert s[0] == s[..k][0] && s[1..][..k - 1] == s[..k][1..];
      CutAt(s[1..], k - 1, item);
    }
  }

  /** The scan of `remove` over one list. */
  method FindIn(s: seq<Entry>, item: Entry) returns (idx: nat)
    ensures idx <= |s| && (idx < |s| <==> item in s)
    ensures idx < |s| ==> s[idx] == item && Cut(s, item) == s[..idx] + s[idx + 1..]
  {
    idx := 0;
    while idx < |s| && s[idx] != item
      invariant 0 <= idx <= |s| && item !in s[..idx]
    {
      idx := idx + 1;
    }
    CutAt(s, idx, item);
    assert s[..|s|] == s;
  }

  /** Least-recently-used first, over two lists. */
  class LRUEvictionPolicy {
    var items: seq<Entry>
    var evictFirst: seq<Entry>

    ghost function Lists(): Queue
      reads this
    {
      Queue(items, evictFirst)
    }

    constructor ()
      ensures Lists() == Queue([], [])
    {
      items, evictFirst := [], [];
    }

    method Push(item: Entry, first: bool)
      modifies this
      ensures Lists() == Pushed(old(Lists()), item, first)
    {
      if item in items || item in evictFirst { return; }
      if first { evictFirst := evictFirst + [item]; } else { items := items + [item]; }
    }

    method Peek(ghost used: map<Entry, real>) returns (v: Option<Entry>)
      requires forall e: Entry :: Lists().Has(e) ==> e in used && used[e] == e.lastUsed
      ensures v == Front(Lists(), used)
    {
      if evictFirst != [] {
        assert forall e: Entry :: e in evictFirst ==> Lists().Has(e);
        var m := MinLastUsed(evictFirst, used);
        return Some(m);
      }
      if items == [] { return None; }
      assert forall e: Entry :: e in items ==> Lists().Has(e);
      var m := MinLastUsed(items, used);
      return Some(m);
    }

    method Remove(item: Entry) returns (r: Result<Entry>)
      modifies this
      ensures if old(Lists()).Has(item) then r == Ok(item) && Lists() == Removed(old(Lists()), item)
              else r == Err(KeyError) && Lists() == old(Lists())
    {
      var idx := FindIn(evictFirst, item);
      if idx < |evictFirst| {
        evictFirst := evictFirst[..idx] + evictFirst[idx + 1..];
        return Ok(item);
      }
      idx := FindIn(items, item);
      if idx < |items| {
        items := items[..idx] + items[idx + 1..];
        return Ok(item);
      }
      return Err(KeyError);
    }
  }

  // ---------------------------------------------------------------- one tier

  ghost function Buckets(ts: seq<Track<Entry>>): set<int> {
    set t | t in ts :: t.bucket
  }

  /** The queues that a tracked sequence falls into. */
  ghost function QueueOf(ts: seq<Track<Entry>>, p: int): Queue {
    Queue(Project(ts, p, false), Project(ts, p, true))
  }

  ghost function QueuesOf(ts: seq<Track<Entry>>): map<int, Queue> {
    map p | p in Buckets(ts) :: QueueOf(ts, p)
  }

  lemma TracksByQueue(ts: seq<Track<Entry>>, item: Entry, bucket: int)
    ensures Tracks(ts, item, bucket) <==> QueueOf(ts, bucket).Has(item)
  {
    ProjectMembers(ts, bucket, false, item);
    ProjectMembers(ts, bucket, true, item);
    if Tracks(ts, item, bucket) {
      var k :| 0 <= k < |ts| && IsTrack(ts[k], item, bucket);
      assert ts[k] == Track(item, bucket, ts[k].first);
    }
  }

  lemma NoBucketNoQueue(ts: seq<Track<Entry>>, bucket: int)
    ensures bucket !in Buckets(ts) <==> QueueOf(ts, bucket).Empty()
  {
    ProjectEmpty(ts, bucket, false);
    ProjectEmpty(ts, bucket, true);
    if bucket in Buckets(ts) {
      var t :| t in ts && t.bucket == bucket;
      var k :| 0 <= k < |ts| && ts[k] == t;
      assert InQueue(ts[k], bucket, t.first);
    }
  }

  /** Each item once in each queue. */
  lemma {:induction false} QueueDistinct(ts: seq<Track<Entry>>, bucket: int, first: bool)
    requires NoDup(ts)
    ensures forall i, j :: 0 <= i < j < |Project(ts, bucket, first)| ==>
              Project(ts, bucket, first)[i] != Project(ts, bucket, first)[j]
  {
    if ts != [] {
      var n := |ts| - 1;
      QueueDistinct(ts[..n], bucket, first);
      if InQueue(ts[n], bucket, first) {
        ProjectMembers(ts[..n], bucket, first, ts[n].item);
        forall k | 0 <= k < n ensures ts[..n][k] != Track(ts[n].item, bucket, first) {
          assert !IsTrack(ts[k], ts[n].item, ts[n].bucket);
        }
      }
    }
  }

  lemma QueuesDisjoint(ts: seq<Track<Entry>>, bucket: int, item: Entry)
    requires NoDup(ts)
    ensures !(item in Project(ts, bucket, false) && item in Project(ts, bucket, true))
  {
    ProjectMembers(ts, bucket, false, item);
    ProjectMembers(ts, bucket, true, item);
    if Track(item, bucket, false) in ts {
      var i :| 0 <= i < |ts| && ts[i] == Track(item, bucket, false);
      forall j | 0 <= j < |ts| ensures ts[j] != Track(item, bucket, true) {
        assert i < j ==> !IsTrack(ts[i], ts[j].item, ts[j].bucket);
        assert j < i ==> !IsTrack(ts[j], ts[i].item, ts[i].bucket);
      }
    }
  }

  lemma {:induction false} DropAbsent(s: seq<Entry>, item: Entry)
    requires item !in s
    ensures Drop(s, item) == s
  {
    if s != [] {
      assert s == s[..|s| - 1] + [s[|s| - 1]];
      DropAbsent(s[..|s| - 1], item);
    }
  }

  /** In a list without repetition, cutting out an item drops it. */
  lemma {:induction false} DropIsCut(s: seq<Entry>, item: Entry)
    requires forall i, j :: 0 <= i < j < |s| ==> s[i] != s[j]
    ensures Drop(s, item) == Cut(s, item)
  {
    if item !in s {
      DropAbsent(s, item);
      CutAt(s, |s|, item);
      assert s[..|s|] == s;
    } else {
      var k :| 0 <= k < |s| && s[k] == item;
      CutAt(s, k, item);
      DropPops(s, k);
    }
  }

  lemma {:induction false} DropPops(s: seq<Entry>, k: nat)
    requires k < |s| && forall i, j :: 0 <= i < j < |s| ==> s[i] != s[j]
    ensures Drop(s, s[k]) == s[..k] + s[k + 1..]
  {
    var n := |s| - 1;
    if k == n {
      DropAbsent(s[..n], s[n]);
    } else {
      DropPops(s[..n], k);
      assert s[..n][k + 1..] + [s[n]] == s[k + 1..];
    }
  }

  function PushInto(queues: map<int, Queue>, p: int, item: Entry, first: bool): map<int, Queue> {
    queues[p := Pushed(if p in queues then queues[p] else Queue([], []), item, first)]
  }

  /** A bucket is forgotten once its queue is empty. */
  function Shrunk(queues: map<int, Queue>, p: int, q: Queue): map<int, Queue> {
    if q.Empty() then queues - {p} else queues[p := q]
  }

  /** Pushing changes one queue. */
  lemma PushQueues(ts: seq<Track<Entry>>, t: Track<Entry>)
    requires NoDup(ts) && !Tracks(ts, t.item, t.bucket)
    ensures NoDup(ts + [t])
    ensures QueuesOf(ts + [t]) == QueuesOf(ts)[t.bucket := Pushed(QueueOf(ts, t.bucket), t.item, t.first)]
  {
    TracksByQueue(ts, t.item, t.bucket);
    BucketsAppend(ts, t);
    forall p
      ensures QueueOf(ts + [t], p) == if p == t.bucket then Pushed(QueueOf(ts, p), t.item, t.first) else QueueOf(ts, p)
    {
      ProjectAppend(ts, t, p, false);
      ProjectAppend(ts, t, p, true);
    }
  }

  lemma BucketsAppend(ts: seq<Track<Entry>>, t: Track<Entry>)
    ensures Buckets(ts + [t]) == Buckets(ts) + {t.bucket}
  {
    forall b | b in Buckets(ts) + {t.bucket} ensures b in Buckets(ts + [t]) {
      if b == t.bucket { assert t in ts + [t]; }
      else { var u :| u in ts && u.bucket == b; assert u in ts + [t]; }
    }
  }

  /** Removing changes one queue, and forgets its bucket once it is empty. */
  lemma RemoveQueues(ts: seq<Track<Entry>>, item: Entry, p: int)
    requires NoDup(ts) && Tracks(ts, item, p)
    ensures QueueOf(Without(ts, item, p), p) == Removed(QueueOf(ts, p), item)
    ensures forall b :: b != p ==> QueueOf(Without(ts, item, p), b) == QueueOf(ts, b)
  {
    TracksByQueue(ts, item, p);
    QueueRemoved(ts, item, p);
    forall b | b != p ensures QueueOf(Without(ts, item, p), b) == QueueOf(ts, b) {
      ProjectWithout(ts, item, p, b, false);
      ProjectWithout(ts, item, p, b, true);
    }
  }

  lemma ShrinkQueues(ts: seq<Track<Entry>>, item: Entry, p: int)
    requires NoDup(ts) && Tracks(ts, item, p)
    ensures QueuesOf(Without(ts, item, p)) == Shrunk(QueuesOf(ts), p, Removed(QueueOf(ts, p), item))
  {
    RemoveQueues(ts, item, p);
    BucketsWithout(ts, item, p);
    NoBucketNoQueue(Without(ts, item, p), p);
  }

  /** The queues before and after a push, in terms of what is tracked. */
  lemma PushedQueues(ts: seq<Track<Entry>>, t: Track<Entry>)
    requires NoDup(ts)
    ensures NoDup(AfterPush(ts, t))
    ensures QueuesOf(AfterPush(ts, t)) == PushInto(QueuesOf(ts), t.bucket, t.item, t.first)
  {
    TracksByQueue(ts, t.item, t.bucket);
    NoBucketNoQueue(ts, t.bucket);
    if !Tracks(ts, t.item, t.bucket) { PushQueues(ts, t); }
  }

  lemma RemovedQueues(ts: seq<Track<Entry>>, item: Entry, p: int)
    requires NoDup(ts)
    ensures Tracks(ts, item, p) <==> p in QueuesOf(ts) && QueuesOf(ts)[p].Has(item)
    ensures Tracks(ts, item, p) ==>
              && NoDup(Without(ts, item, p))
              && QueuesOf(Without(ts, item, p)) == Shrunk(QueuesOf(ts), p, Removed(QueuesOf(ts)[p], item))
  {
    TracksByQueue(ts, item, p);
    NoBucketNoQueue(ts, p);
    if Tracks(ts, item, p) {
      ShrinkQueues(ts, item, p);
      BucketsWithout(ts, item, p);
    }
  }

  lemma QueueRemoved(ts: seq<Track<Entry>>, item: Entry, p: int)
    requires NoDup(ts) && QueueOf(ts, p).Has(item)
    ensures QueueOf(Without(ts, item, p), p) == Removed(QueueOf(ts, p), item)
  {
    ProjectWithout(ts, item, p, p, false);
    ProjectWithout(ts, item, p, p, true);
    QueueDistinct(ts, p, false);
    QueueDistinct(ts, p, true);
    QueuesDisjoint(ts, p, item);
    if item in Project(ts, p, true) {
      DropIsCut(Project(ts, p, true), item);
      DropAbsent(Project(ts, p, false), item);
    } else {
      DropIsCut(Project(ts, p, false), item);
      DropAbsent(Project(ts, p, true), item);
    }
  }

  lemma BucketsWithout(ts: seq<Track<Entry>>, item: Entry, p: int)
    requires NoDup(ts) && Tracks(ts, item, p)
    ensures NoDup(Without(ts, item, p))
    ensures Buckets(Without(ts, item, p)) + {p} == Buckets(ts)
  {
    var a, t, c := SplitTracks(ts, item, p);
    BucketsMiddle(a, t, c);
  }

  lemma SplitTracks(ts: seq<Track<Entry>>, item: Entry, p: int)
    returns (a: seq<Track<Entry>>, t: Track<Entry>, c: seq<Track<Entry>>)
    requires NoDup(ts) && Tracks(ts, item, p)
    ensures ts == a + [t] + c && Without(ts, item, p) == a + c && NoDup(a + c) && t.bucket == p
  {
    var k :| 0 <= k < |ts| && IsTrack(ts[k], item, p);
    WithoutKeeps(ts, k);
    WithoutCuts(ts, k);
    a, t, c := ts[..k], ts[k], ts[k + 1..];
  }

  lemma BucketsMiddle(a: seq<Track<Entry>>, t: Track<Entry>, c: seq<Track<Entry>>)
    ensures Buckets(a + [t] + c) == Buckets(a + c) + {t.bucket}
  {
    var ts := a + [t] + c;
    assert forall u :: u in ts <==> u in a + c || u == t;
    forall b | b in Buckets(a + c) + {t.bucket} ensures b in Buckets(ts) {
      if b == t.bucket { assert t in ts; }
      else { var u :| u in a + c && u.bucket == b; assert u in ts; }
    }
    forall b | b in Buckets(ts) ensures b in Buckets(a + c) + {t.bucket} {
      var u :| u in ts && u.bucket == b;
    }
  }

  lemma SomeKey(keys: set<int>)
    requires |keys| > 0
    ensures exists p :: p in keys
  {
    assert (forall p :: p !in keys) ==> keys == {};
  }

  /** `sorted(keys)`. */
  method SortedKeys(keys: set<int>) returns (s: seq<int>)
    ensures forall p :: p in s <==> p in keys
    ensures forall i, j :: 0 <= i < j < |s| ==> s[i] < s[j]
  {
    s := [];
    var rest := keys;
    while |rest| > 0
      invariant rest <= keys
      invariant forall p :: p in s <==> p in keys - rest
      invariant forall i, j :: 0 <= i < j < |s| ==> s[i] < s[j]
      decreases rest
    {
      SomeKey(rest);
      var p :| p in rest;
      s := InsertKey(s, p);
      rest := rest - {p};
    }
  }

  method InsertKey(s: seq<int>, p: int) returns (r: seq<int>)
    requires p !in s && forall i, j :: 0 <= i < j < |s| ==> s[i] < s[j]
    ensures forall q :: q in r <==> q in s || q == p
    ensures forall i, j :: 0 <= i < j < |r| ==> r[i] < r[j]
  {
    var k := 0;
    while k < |s| && s[k] < p
      invariant 0 <= k <= |s| && forall i :: 0 <= i < k ==> s[i] < p
    {
      k := k + 1;
    }
    r := s[..k] + [p] + s[k..];
    assert s == s[..k] + s[k..];
  }

  lemma SnapshotCovers(ts: seq<Track<Entry>>, p: int, used: map<Entry, real>)
    requires used == LastUsed(EntriesOf(ts))
    ensures forall e: Entry :: QueueOf(ts, p).Has(e) ==> e in used && used[e] == e.lastUsed
  {
    forall e: Entry | QueueOf(ts, p).Has(e) ensures e in used && used[e] == e.lastUsed {
      ProjectMembers(ts, p, false, e);
      ProjectMembers(ts, p, true, e);
    }
  }

  lemma NoBucketsNoTracks(ts: seq<Track<Entry>>)
    ensures Buckets(ts) == {} ==> ts == []
  {
    if ts != [] { assert ts[0] in ts && ts[0].bucket in Buckets(ts); }
  }

  lemma LeastBucket(ts: seq<Track<Entry>>, order: seq<int>, k: nat)
    requires k < |order| && order[k] in Buckets(ts)
    requires forall p :: p in order <==> p in Buckets(ts)
    requires forall i, j :: 0 <= i < j < |order| ==> order[i] < order[j]
    requires forall i :: 0 <= i < k ==> order[i] !in Buckets(ts)
    ensures ts != [] && (exists i :: 0 <= i < |ts| && ts[i].bucket == order[k])
    ensures forall i :: 0 <= i < |ts| ==> order[k] <= ts[i].bucket
  {
    var t :| t in ts && t.bucket == order[k];
    forall i | 0 <= i < |ts| ensures order[k] <= ts[i].bucket {
      assert ts[i] in ts && ts[i].bucket in Buckets(ts);
      var j :| 0 <= j < |order| && order[j] == ts[i].bucket;
    }
  }

  /** The front of the lowest occupied bucket is the victim. */
  lemma FrontIsVictim(ts: seq<Track<Entry>>, used: map<Entry, real>, order: seq<int>, k: nat)
    requires k < |order| && order[k] in Buckets(ts)
    requires forall p :: p in order <==> p in Buckets(ts)
    requires forall i, j :: 0 <= i < j < |order| ==> order[i] < order[j]
    requires forall i :: 0 <= i < k ==> order[i] !in Buckets(ts)
    ensures ts != [] && Front(QueueOf(ts, order[k]), used) == Some(Victim(ts, used).item)
  {
    LeastBucket(ts, order, k);
    VictimByBucket(ts, used, order[k]);
  }

  /** Priority first, recency within priority. */
  class PrioritizedEvictionPolicy {
    var policies: map<int, LRUEvictionPolicy>
    ghost var tracked: seq<Track<Entry>>

    ghost function Queues(): map<int, Queue>
      reads `policies, policies.Values
    {
      map p | p in policies :: policies[p].Lists()
    }

    ghost predicate Separate()
      reads `policies
    {
      forall p, q :: p in policies && q in policies && p != q ==> policies[p] != policies[q]
    }

    ghost predicate Valid()
      reads this, policies.Values
    {
      Separate() && NoDup(tracked) && Queues() == QueuesOf(tracked)
    }

    constructor ()
      ensures Valid() && tracked == [] && policies == map[]
    {
      policies, tracked := map[], [];
    }

    /** Creates the bucket's policy on first use. */
    method GetPolicy(p: int) returns (policy: LRUEvictionPolicy)
      requires Separate()
      modifies this
      ensures Separate() && tracked == old(tracked)
      ensures p in policies && policies[p] == policy && fresh(policies.Values - old(policies.Values))
      ensures Queues() == if p in old(Queues()) then old(Queues()) else old(Queues())[p := Queue([], [])]
    {
      if p !in policies {
        policy := new LRUEvictionPolicy();
        policies := policies[p := policy];
      }
      policy := policies[p];
    }

    /** The dictionary part of `push`. */
    method PushTo(p: int, item: Entry, first: bool)
      requires Separate()
      modifies this, policies.Values
      ensures Separate() && tracked == old(tracked) && fresh(policies.Values - old(policies.Values))
      ensures Queues() == PushInto(old(Queues()), p, item, first)
    {
      ghost var queues := Queues();
      var policy := GetPolicy(p);
      assert policy.Lists() == Queues()[p] == if p in queues then queues[p] else Queue([], []);
      label created:
      policy.Push(item, first);
      assert forall q :: q in policies && q != p ==> policies[q].Lists() == old@created(policies[q].Lists());
      assert Queues() == old@created(Queues())[p := policy.Lists()];
    }

    method Push(item: Entry, first: bool)
      requires Valid()
      modifies this, policies.Values
      ensures Valid() && fresh(policies.Values - old(policies.Values))
      ensures tracked == AfterPush(old(tracked), Track(item, old(item.priority), first))
    {
      ghost var t := Track(item, item.priority, first);
      PushedQueues(tracked, t);
      PushTo(item.priority, item, first);
      tracked := AfterPush(tracked, t);
    }

    /** Looking into one bucket. */
    method PeekBucket(p: int) returns (v: Option<Entry>)
      requires Valid() && p in policies
      ensures p in Buckets(tracked) && v == Front(QueueOf(tracked, p), LastUsed(EntriesOf(tracked)))
    {
      assert p in Queues() && Queues()[p] == QueueOf(tracked, p);
      SnapshotCovers(tracked, p, LastUsed(EntriesOf(tracked)));
      v := policies[p].Peek(LastUsed(EntriesOf(tracked)));
    }

    method Peek() returns (v: Option<Entry>)
      requires Valid()
      ensures v == if tracked == [] then None else Some(Victim(tracked, LastUsed(EntriesOf(tracked))).item)
    {
      ghost var ts, used := tracked, LastUsed(EntriesOf(tracked));
      var order := SortedKeys(policies.Keys);
      assert policies.Keys == Queues().Keys == Buckets(ts);
      for k := 0 to |order|
        invariant forall i :: 0 <= i < k ==> order[i] !in Buckets(ts)
      {
        var candidate := PeekBucket(order[k]);
        FrontIsVictim(ts, used, order, k);
        if candidate.Some? { return candidate; }
      }
      NoBucketsNoTracks(ts);
      return None;
    }

    /** The dictionary part of `remove`. */
    method RemoveFrom(p: int, item: Entry) returns (r: Result<Entry>)
      requires Separate()
      modifies this, policies.Values
      ensures Separate() && tracked == old(tracked) && policies.Values <= old(policies.Values)
      ensures if p in old(Queues()) && old(Queues())[p].Has(item)
              then r == Ok(item) && Queues() == Shrunk(old(Queues()), p, Removed(old(Queues())[p], item))
              else r == Err(KeyError) && Queues() == old(Queues())
    {
      if p !in policies { return Err(KeyError); }
      var policy := policies[p];
      assert policy.Lists() == Queues()[p];
      r := policy.Remove(item);
      assert forall q :: q in policies && q != p ==> policies[q].Lists() == old(policies[q].Lists());
      assert Queues() == old(Queues())[p := policy.Lists()];
      if r.Err? { return; }
      if |policy.items| + |policy.evictFirst| == 0 {
        policies := policies - {p};
        assert Queues() == old(Queues()) - {p};
      }
    }

    /** The policy is looked up under the item's present priority, which is the bucket it
        was pushed into only as long as nobody has changed it. */
    method Remove(item: Entry) returns (r: Result<Entry>)
      requires Valid()
      modifies this, policies.Values
      ensures Valid() && policies.Values <= old(policies.Values)
      ensures if Tracks(old(tracked), item, old(item.priority))
              then r == Ok(item) && tracked == Without(old(tracked), item, old(item.priority))
              else r == Err(KeyError) && tracked == old(tracked)
    {
      ghost var ts, p := tracked, item.priority;
      RemovedQueues(ts, item, p);
      r := RemoveFrom(item.priority, item);
      Retrack(if r.Ok? then Without(ts, item, p) else ts);
    }

    /** Records what the queues now hold. */
    ghost method Retrack(ts: seq<Track<Entry>>)
      requires Separate() && NoDup(ts) && Queues() == QueuesOf(ts)
      modifies `tracked
      ensures Valid() && tracked == ts && Queues() == old(Queues())
    {
      tracked := ts;
    }

    method Pop() returns (r: Result<Entry>)
      requires Valid()
      modifies this, policies.Values
      ensures Valid() && policies.Values <= old(policies.Values)
      ensures var ts := old(tracked);
              && r == Popped(ts, old(LastUsed(EntriesOf(tracked))), old(Priorities(EntriesOf(tracked))))
              && tracked == AfterPop(ts, old(LastUsed(EntriesOf(tracked))), old(Priorities(EntriesOf(tracked))))
    {
      var victim := Peek();
      if victim.None? { return Err(IndexError); }
      VictimIsLive(tracked, LastUsed(EntriesOf(tracked)));
      r := Remove(victim.value);
    }
  }

  lemma VictimIsLive(ts: seq<Track<Entry>>, used: map<Entry, real>)
    requires ts != []
    ensures Victim(ts, used).item in EntriesOf(ts)
    ensures var v := Victim(ts, used).item; Live(Priorities(EntriesOf(ts)), v) == v.priority
  {
    var k := VictimIsLeast(ts, used);
    assert ts[k] in ts;
  }
}
