/** What `cluster_map` returns: when the list is complete and right, when the
    final comprehension raises KeyError, and the interleaving that loses work. */
module ClusterResult {
  import opened Basics
  import opened ClusterMap
  import opened ClusterSafety

  /** In every reachable state each index is in exactly one place, and every result
      written is f of its item. */
  lemma ExactlyOnePlace<T, R>(c: Config<T, R>, pulls: seq<nat>, steps: seq<Step<R>>, t: State<T, R>, i: nat)
    requires Reaches(c, pulls, steps, t) && i < |c.items|
    ensures Cover(t.queue, i) + Cover(t.hostHeld, i) + WeighFeeders(t.feeders, Holds(i)) + Cover(t.done, i) == 1
    ensures i in t.results ==> Cover(t.done, i) == 1 && t.results[i] == c.f(c.items[i])
    ensures |t.results| + t.missing == Weigh(t.done, Size())
  {
    InitInv(c, pulls);
    RunInv(c, Init(c, pulls), steps, t);
    assert Total(t, Holds(i)) == 1;
  }

  // ---------------------------------------------------------------- counting

  /** Every item is accounted for: returned, owed by a worker, or still in a chunk. */
  lemma ItemsAccounted<T, R>(c: Config<T, R>, pulls: seq<nat>, steps: seq<Step<R>>, t: State<T, R>)
    requires Reaches(c, pulls, steps, t)
    ensures |t.results| + t.missing + Weigh(t.queue, Size()) + Weigh(t.hostHeld, Size())
            + WeighFeeders(t.feeders, Size()) == |c.items|
  {
    var s := Init(c, pulls);
    InitInv(c, pulls);
    RunInv(c, s, steps, t);
    RunConserves(c, s, steps, t, Size());
    NoFeederWeight(s.feeders, Size());
    ChunksPartition(c.items, c.chunkSize, 0, 0);
  }

  /** The exact condition: when the host has left its loop, the caller gets `map f items`
      if and only if the queue is empty at that moment and no worker's list was short;
      otherwise the final comprehension raises KeyError. */
  lemma ExitCondition<T, R>(c: Config<T, R>, pulls: seq<nat>, steps: seq<Step<R>>, t: State<T, R>)
    requires Reaches(c, pulls, steps, t) && t.host.HostExited?
    ensures t.queue == [] && t.missing == 0 <==> Returned(c, t) == Some(MapF(c.f, c.items))
    ensures !(t.queue == [] && t.missing == 0) <==> Returned(c, t) == None
    ensures |t.results| == |c.items| - t.missing - Weigh(t.queue, Size())
  {
    InitInv(c, pulls);
    RunInv(c, Init(c, pulls), steps, t);
    ItemsAccounted(c, pulls, steps, t);
    forall w | 0 <= w < |t.feeders| ensures t.feeders[w].held == [] { assert FeederOk(c, t.feeders[w]); }
    NoFeederWeight(t.feeders, Size());
    if t.queue == [] && t.missing == 0 {
      RangeFilled(|c.items|, t.results.Keys);
      assert Returned(c, t).value == MapF(c.f, c.items);
    } else {
      if t.queue != [] { assert Genuine(c.items, t.queue[0]); }
      if forall i :: 0 <= i < |c.items| ==> i in t.results {
        RangeFits(|c.items|, t.results.Keys);
        assert false;
      }
    }
  }

  /** With liveness sampled before emptiness, leaving the loop means the queue is empty:
      whatever the interleaving, the pull counts and the failures, the result is complete. */
  lemma AliveFirstIsComplete<T, R>(c: Config<T, R>, pulls: seq<nat>, steps: seq<Step<R>>, t: State<T, R>)
    requires c.order.AliveThenEmpty? && Reaches(c, pulls, steps, t) && t.host.HostExited?
    ensures t.missing == 0 ==> Returned(c, t) == Some(MapF(c.f, c.items))
  {
    InitInv(c, pulls);
    RunInv(c, Init(c, pulls), steps, t);
    ExitCondition(c, pulls, steps, t);
  }

  // ---------------------------------------------------------------- the coded order

  /** A feeder puts a chunk back; its last put, with nothing in hand, only ends it. */
  predicate Requeues<T, R>(s: State<T, R>, step: Step<R>) {
    step.FeederPut? && step.w < |s.feeders| && s.feeders[step.w].held != []
  }

  /** Was a chunk re-queued since the host last saw the queue empty? */
  predicate PutSince<T(==), R(==)>(c: Config<T, R>, s: State<T, R>, steps: seq<Step<R>>, t: State<T, R>, flag: bool)
    requires Run(c, s, steps, t)
    decreases |steps|
  {
    if steps == [] then flag
    else PutSince(c, Apply(c, s, steps[0]), steps[1..], t, FlagAfter(s, steps[0], flag))
  }

  predicate FlagAfter<T, R>(s: State<T, R>, step: Step<R>, flag: bool) {
    Requeues(s, step) || (flag && !step.GetTimeout?)
  }

  ghost predicate Drained<T, R>(s: State<T, R>, flag: bool) {
    s.host.HostSample? || s.host.HostExited? ==> s.queue == [] || flag
  }

  lemma {:induction false} RunDrained<T, R>(c: Config<T, R>, s: State<T, R>, steps: seq<Step<R>>, t: State<T, R>,
        flag: bool)
    requires c.order.EmptyThenAlive? && Drained(s, flag) && Run(c, s, steps, t)
    ensures Drained(t, PutSince(c, s, steps, t, flag))
    decreases |steps|
  {
    if steps != [] {
      RunDrained(c, Apply(c, s, steps[0]), steps[1..], t, FlagAfter(s, steps[0], flag));
    }
  }

  /** In the coded order work is lost only if a feeder re-queues a chunk after the host
      has seen the queue empty and before it leaves. */
  lemma LossNeedsLatePut<T, R>(c: Config<T, R>, pulls: seq<nat>, steps: seq<Step<R>>, t: State<T, R>)
    requires c.order.EmptyThenAlive? && Reaches(c, pulls, steps, t) && t.host.HostExited?
    requires t.missing == 0 && Returned(c, t) != Some(MapF(c.f, c.items))
    ensures PutSince(c, Init(c, pulls), steps, t, false)
  {
    RunDrained(c, Init(c, pulls), steps, t, false);
    ExitCondition(c, pulls, steps, t);
  }

  lemma {:induction false} NoFailureNoPut<T, R>(c: Config<T, R>, s: State<T, R>, steps: seq<Step<R>>, t: State<T, R>)
    requires Run(c, s, steps, t)
    requires forall k :: 0 <= k < |steps| ==> !steps[k].FeederFail?
    requires forall w :: 0 <= w < |s.feeders| ==> s.feeders[w].pc != FeederRequeue
    ensures !PutSince(c, s, steps, t, false)
    decreases |steps|
  {
    if steps != [] {
      assert !steps[0].FeederFail? && !steps[0].FeederPut?;
      NoFailureNoPut(c, Apply(c, s, steps[0]), steps[1..], t);
    }
  }

  /** So the coded order is right whenever no run_remote call raises and no list is short. */
  lemma NoFailureIsComplete<T, R>(c: Config<T, R>, pulls: seq<nat>, steps: seq<Step<R>>, t: State<T, R>)
    requires Reaches(c, pulls, steps, t) && t.host.HostExited? && t.missing == 0
    requires forall k :: 0 <= k < |steps| ==> !steps[k].FeederFail?
    ensures Returned(c, t) == Some(MapF(c.f, c.items))
  {
    if c.order.AliveThenEmpty? {
      AliveFirstIsComplete(c, pulls, steps, t);
    } else if Returned(c, t) != Some(MapF(c.f, c.items)) {
      NoFailureNoPut(c, Init(c, pulls), steps, t);
      LossNeedsLatePut(c, pulls, steps, t);
    }
  }

  // ---------------------------------------------------------------- the race

  function RaceConfig<T, R>(x: T, f: T -> R): Config<T, R> {
    Config([x], f, 1, 1, EmptyThenAlive)
  }

  /** One item, one feeder.  The feeder takes the only chunk; the host's get times out;
      run_remote raises, the chunk goes back and the thread dies; the host then samples
      the thread, finds it dead and leaves. */
  function RaceSteps<R>(): seq<Step<R>> {
    [FeederPull(0), FeederPull(0), GetTimeout, FeederFail(0), FeederPut(0), FeederPut(0), SampleThread, SampleThread]
  }

  function RaceState<T, R>(queue: seq<Chunk<T>>, host: HostPc, pc: FeederPc, held: seq<Chunk<T>>): State<T, R> {
    State(queue, host, [], [Feeder(pc, held)], map[], [], 0)
  }

  /** One step at the front of a run. */
  lemma Prepend<T, R>(c: Config<T, R>, s: State<T, R>, step: Step<R>, mid: State<T, R>, steps: seq<Step<R>>,
        t: State<T, R>)
    requires Enabled(c, s, step) && Apply(c, s, step) == mid && Run(c, mid, steps, t)
    ensures Run(c, s, [step] + steps, t)
  {
    assert ([step] + steps)[1..] == steps;
  }

  /** The second half: the feeder fails, re-queues and dies; the host samples and leaves. */
  lemma RaceTail<T, R>(c: Config<T, R>, ch: Chunk<T>)
    requires c.order.EmptyThenAlive?
    ensures Run(c, RaceState([], HostSample(0), FeederRunning, [ch]),
                [FeederFail(0)] + ([FeederPut(0)] + ([FeederPut(0)] + ([SampleThread] + ([SampleThread] + [])))),
                RaceState([ch], HostExited, FeederDead, []))
  {
    var q := [ch];
    var t: State<T, R> := RaceState(q, HostExited, FeederDead, []);
    var t1: State<T, R> := RaceState(q, HostSample(1), FeederDead, []);
    var t2: State<T, R> := RaceState(q, HostSample(0), FeederDead, []);
    var t3: State<T, R> := RaceState(q, HostSample(0), FeederRequeue, []);
    var t4: State<T, R> := RaceState([], HostSample(0), FeederRequeue, q);
    var t5: State<T, R> := RaceState([], HostSample(0), FeederRunning, q);
    assert q[1..] == [] && [] + [q[0]] == q;
    Prepend(c, t1, SampleThread, t, [], t);
    Prepend(c, t2, SampleThread, t1, [SampleThread] + [], t);
    Prepend(c, t3, FeederPut(0), t2, [SampleThread] + ([SampleThread] + []), t);
    Prepend(c, t4, FeederPut(0), t3, [FeederPut(0)] + ([SampleThread] + ([SampleThread] + [])), t);
    Prepend(c, t5, FeederFail(0), t4, [FeederPut(0)] + ([FeederPut(0)] + ([SampleThread] + ([SampleThread] + []))), t);
  }

  /** The first half: the feeder takes the chunk, the host's get times out. */
  lemma RaceHead<T, R>(c: Config<T, R>, ch: Chunk<T>, rest: seq<Step<R>>, t: State<T, R>)
    requires c.order.EmptyThenAlive?
    requires Run(c, RaceState([], HostSample(0), FeederRunning, [ch]), rest, t)
    ensures Run(c, RaceState([ch], HostGet(false), FeederPulling(1), []),
                [FeederPull(0)] + ([FeederPull(0)] + ([GetTimeout] + rest)), t)
  {
    var q := [ch];
    var s1: State<T, R> := RaceState(q, HostGet(false), FeederPulling(1), []);
    var s2: State<T, R> := RaceState([], HostGet(false), FeederPulling(0), q);
    var s3: State<T, R> := RaceState([], HostGet(false), FeederRunning, q);
    var s4: State<T, R> := RaceState([], HostSample(0), FeederRunning, q);
    assert q[1..] == [] && [] + [q[0]] == q;
    Prepend(c, s3, GetTimeout, s4, rest, t);
    Prepend(c, s2, FeederPull(0), s3, [GetTimeout] + rest, t);
    Prepend(c, s1, FeederPull(0), s2, [FeederPull(0)] + ([GetTimeout] + rest), t);
  }

  /** The race of the coded exit test: a reachable exit that raises KeyError although
      every worker that answered answered in full. */
  lemma ExitRace<T, R>(x: T, f: T -> R) returns (t: State<T, R>)
    ensures Reaches(RaceConfig(x, f), [1], RaceSteps(), t)
    ensures t.host.HostExited? && t.missing == 0
    ensures Returned(RaceConfig(x, f), t) == None && t.queue == [Chunk(0, [x])]
  {
    var c := RaceConfig(x, f);
    var ch := Chunk(0, [x]);
    t := RaceState([ch], HostExited, FeederDead, []);
    var tail: seq<Step<R>> :=
      [FeederFail(0)] + ([FeederPut(0)] + ([FeederPut(0)] + ([SampleThread] + ([SampleThread] + []))));
    RaceTail(c, ch);
    RaceHead(c, ch, tail, t);
    assert Init(c, [1]) == RaceState([ch], HostGet(false), FeederPulling(1), []) by {
      assert [x][0..1] == [x] && Chunks([x], 1, 1) == [];
    }
    assert RaceSteps() == [FeederPull(0)] + ([FeederPull(0)] + ([GetTimeout] + tail));
    assert 0 !in t.results;
  }

  // ---------------------------------------------------------------- parallel_map_with_feeder

  /** `[results[i] for i in sorted(results)]`, which skips what is missing. */
  function Present<R>(results: map<nat, R>, n: nat): seq<R> {
    if n == 0 then []
    else Present(results, n - 1) + if n - 1 in results then [results[n - 1]] else []
  }

  lemma {:induction false} PresentLength<R>(results: map<nat, R>, n: nat, ks: set<nat>)
    requires forall i: nat :: i in ks <==> i in results && i < n
    ensures |Present(results, n)| == |ks|
  {
    if n > 0 {
      PresentLength(results, n - 1, ks - {n - 1});
    } else {
      assert ks == {};
    }
  }

  lemma {:induction false} PresentFull<T, R>(f: T -> R, items: seq<T>, results: map<nat, R>, n: nat)
    requires n <= |items| && Correct(f, items, results) && forall i: nat :: i < n ==> i in results
    ensures Present(results, n) == MapF(f, items[..n])
  {
    if n > 0 {
      PresentFull(f, items, results, n - 1);
      assert MapF(f, items[..n]) == MapF(f, items[..n - 1]) + [f(items[n - 1])];
    }
  }

  /** `parallel_map_with_feeder` is this protocol with one-item chunks and at most one
      feeder, but returns what is present: the same race costs it the queued items
      without any error, and its list is complete exactly when the queue is empty. */
  lemma ParallelMapResult<T, R>(c: Config<T, R>, pulls: seq<nat>, steps: seq<Step<R>>, t: State<T, R>)
    requires c.chunkSize == 1 && c.feeders <= 1
    requires Reaches(c, pulls, steps, t) && t.host.HostExited? && t.missing == 0
    ensures |Present(t.results, |c.items|)| == |c.items| - |t.queue|
    ensures Present(t.results, |c.items|) == MapF(c.f, c.items) <==> t.queue == []
  {
    InitInv(c, pulls);
    RunInv(c, Init(c, pulls), steps, t);
    ExitCondition(c, pulls, steps, t);
    PresentLength(t.results, |c.items|, t.results.Keys);
    RunUnit(c, Init(c, pulls), steps, t);
    UnitSize(t.queue);
    if t.queue == [] {
      PresentFull(c.f, c.items, t.results, |c.items|);
      assert c.items[..|c.items|] == c.items;
    }
  }

  ghost predicate UnitChunks<T>(cs: seq<Chunk<T>>) {
    forall k :: 0 <= k < |cs| ==> |cs[k].items| == 1
  }

  ghost predicate AllUnit<T, R>(s: State<T, R>) {
    UnitChunks(s.queue) && forall w :: 0 <= w < |s.feeders| ==> UnitChunks(s.feeders[w].held)
  }

  lemma {:induction false} UnitSize<T>(cs: seq<Chunk<T>>)
    requires UnitChunks(cs)
    ensures Weigh(cs, Size()) == |cs|
  {
    if cs != [] { UnitSize(cs[1..]); }
  }

  lemma {:induction false} RunUnit<T, R>(c: Config<T, R>, s: State<T, R>, steps: seq<Step<R>>, t: State<T, R>)
    requires Run(c, s, steps, t)
    requires AllUnit(s) || (exists pulls :: c.chunkSize == 1 && ValidConfig(c, pulls) && s == Init(c, pulls))
    ensures AllUnit(t)
    decreases |steps|
  {
    if !AllUnit(s) {
      ChunksPartition(c.items, 1, 0, 0);
      forall k | 0 <= k < |s.queue| ensures |s.queue[k].items| == 1 { assert Genuine(c.items, s.queue[k]); }
    }
    if steps != [] {
      var next := Apply(c, s, steps[0]);
      forall w | 0 <= w < |next.feeders| ensures UnitChunks(next.feeders[w].held) {
        assert UnitChunks(s.feeders[w].held);
      }
      assert UnitChunks(next.queue) by {
        if steps[0].FeederPut? { assert UnitChunks(s.feeders[steps[0].w].held); }
      }
      RunUnit(c, next, steps[1..], t);
    }
  }
}
