/** What every run of `cluster_map` keeps: no chunk is lost or duplicated, every
    result written is the right one, and what the caller gets back. */
module ClusterSafety {
  import opened Basics
  import opened ClusterMap

  // ---------------------------------------------------------------- weights

  /** The sum of a weight over a list of chunks. */
  function Weigh<T>(cs: seq<Chunk<T>>, w: Chunk<T> -> nat): nat {
    if cs == [] then 0 else w(cs[0]) + Weigh(cs[1..], w)
  }

  function WeighFeeders<T>(fs: seq<Feeder<T>>, w: Chunk<T> -> nat): nat {
    if fs == [] then 0 else Weigh(fs[0].held, w) + WeighFeeders(fs[1..], w)
  }

  /** The weight of every chunk anywhere in a state. */
  function Total<T, R>(s: State<T, R>, w: Chunk<T> -> nat): nat {
    Weigh(s.queue, w) + Weigh(s.hostHeld, w) + WeighFeeders(s.feeders, w) + Weigh(s.done, w)
  }

  lemma {:induction false} WeighAppend<T>(a: seq<Chunk<T>>, b: seq<Chunk<T>>, w: Chunk<T> -> nat)
    ensures Weigh(a + b, w) == Weigh(a, w) + Weigh(b, w)
  {
    if a == [] {
      assert a + b == b;
    } else {
      assert (a + b)[1..] == a[1..] + b;
      WeighAppend(a[1..], b, w);
    }
  }

  lemma {:induction false} WeighUpdate<T>(fs: seq<Feeder<T>>, k: nat, fd: Feeder<T>, w: Chunk<T> -> nat)
    requires k < |fs|
    ensures WeighFeeders(fs[k := fd], w) + Weigh(fs[k].held, w) == WeighFeeders(fs, w) + Weigh(fd.held, w)
  {
    if k > 0 {
      assert fs[k := fd][1..] == fs[1..][k - 1 := fd];
      WeighUpdate(fs[1..], k - 1, fd, w);
    } else {
      assert fs[k := fd][1..] == fs[1..];
    }
  }

  lemma {:induction false} NoFeederWeight<T>(fs: seq<Feeder<T>>, w: Chunk<T> -> nat)
    requires forall k :: 0 <= k < |fs| ==> fs[k].held == []
    ensures WeighFeeders(fs, w) == 0
  {
    if fs != [] {
      forall k | 0 <= k < |fs[1..]| ensures fs[1..][k].held == [] { assert fs[1..][k] == fs[k + 1]; }
      NoFeederWeight(fs[1..], w);
    }
  }

  /** Conservation: whatever is counted per chunk, no step changes its total. */
  lemma StepConserves<T, R>(c: Config<T, R>, s: State<T, R>, step: Step<R>, w: Chunk<T> -> nat)
    requires Enabled(c, s, step)
    ensures Total(Apply(c, s, step), w) == Total(s, w)
  {
    var t := Apply(c, s, step);
    if s.queue != [] {
      assert s.queue == [s.queue[0]] + s.queue[1..];
      WeighAppend(s.hostHeld, [s.queue[0]], w);
      assert Weigh([s.queue[0]], w) == w(s.queue[0]);
    }
    match step
    case HostFinish(out) => WeighAppend(s.done, s.hostHeld, w);
    case FeederPull(k) =>
      WeighUpdate(s.feeders, k, t.feeders[k], w);
      if s.queue != [] { WeighAppend(s.feeders[k].held, [s.queue[0]], w); }
    case FeederFinish(k, out, pull) =>
      WeighUpdate(s.feeders, k, t.feeders[k], w);
      WeighAppend(s.done, s.feeders[k].held, w);
    case FeederFail(k) => WeighUpdate(s.feeders, k, t.feeders[k], w);
    case FeederPut(k) =>
      WeighUpdate(s.feeders, k, t.feeders[k], w);
      if s.feeders[k].held != [] { WeighAppend(s.queue, [s.feeders[k].held[0]], w); }
    case _ =>
  }

  lemma {:induction false} RunConserves<T, R>(c: Config<T, R>, s: State<T, R>, steps: seq<Step<R>>, t: State<T, R>,
        w: Chunk<T> -> nat)
    requires Run(c, s, steps, t)
    ensures Total(t, w) == Total(s, w)
    decreases |steps|
  {
    if steps != [] {
      StepConserves(c, s, steps[0], w);
      RunConserves(c, Apply(c, s, steps[0]), steps[1..], t, w);
    }
  }

  // ---------------------------------------------------------------- chunk lists

  predicate Covers<T>(ch: Chunk<T>, i: nat) {
    ch.start <= i < ch.start + |ch.items|
  }

  /** How many chunks of a list hold index i. */
  function Cover<T>(cs: seq<Chunk<T>>, i: nat): nat {
    Weigh(cs, Holds(i))
  }

  function Holds<T>(i: nat): Chunk<T> -> nat {
    (ch: Chunk<T>) => if Covers(ch, i) then 1 else 0
  }

  function Size<T>(): Chunk<T> -> nat {
    (ch: Chunk<T>) => |ch.items|
  }

  function One<T>(): Chunk<T> -> nat {
    (ch: Chunk<T>) => 1
  }

  /** A nonempty contiguous piece of the caller's list. */
  predicate Genuine<T(==)>(items: seq<T>, ch: Chunk<T>) {
    |ch.items| > 0 && ch.start + |ch.items| <= |items| && ch.items == items[ch.start..ch.start + |ch.items|]
  }

  predicate AllGenuine<T(==)>(items: seq<T>, cs: seq<Chunk<T>>) {
    forall k :: 0 <= k < |cs| ==> Genuine(items, cs[k])
  }

  /** Chunking partitions the rest of the list into pieces of `size`, the last of which may be
      shorter. */
  lemma {:induction false} ChunksPartition<T>(items: seq<T>, size: nat, idx: nat, i: nat)
    requires size >= 1 && idx <= |items|
    ensures AllGenuine(items, Chunks(items, size, idx))
    ensures Cover(Chunks(items, size, idx), i) == if idx <= i < |items| then 1 else 0
    ensures Weigh(Chunks(items, size, idx), Size()) == |items| - idx
    ensures forall k :: 0 <= k < |Chunks(items, size, idx)| ==> |Chunks(items, size, idx)[k].items| <= size
    ensures forall k :: 0 <= k < |Chunks(items, size, idx)| - 1 ==> |Chunks(items, size, idx)[k].items| == size
    decreases |items| - idx
  {
    if idx < |items| {
      var end := Min(idx + size, |items|);
      var cs := Chunks(items, size, end);
      ChunksPartition(items, size, end, i);
      assert Chunks(items, size, idx) == [Chunk(idx, items[idx..end])] + cs;
      assert Chunks(items, size, idx)[1..] == cs;
    }
  }

  lemma {:induction false} CoverPositive<T>(cs: seq<Chunk<T>>, k: nat, i: nat)
    requires k < |cs| && Covers(cs[k], i)
    ensures Cover(cs, i) >= 1
  {
    if k > 0 {
      CoverPositive(cs[1..], k - 1, i);
    }
  }

  // ---------------------------------------------------------------- what Store writes

  lemma {:induction false} StoreItemsKeys<R>(results: map<nat, R>, start: nat, out: seq<R>)
    ensures forall i :: i in StoreItems(results, start, out) <==> i in results || start <= i < start + |out|
    ensures forall i :: i in results && i < start ==> StoreItems(results, start, out)[i] == results[i]
    decreases |out|
  {
    if out != [] { StoreItemsKeys(results[start := out[0]], start + 1, out[1..]); }
  }

  lemma {:induction false} StoreItemsSize<R>(results: map<nat, R>, start: nat, out: seq<R>)
    requires forall i :: start <= i < start + |out| ==> i !in results
    ensures |StoreItems(results, start, out)| == |results| + |out|
    decreases |out|
  {
    if out != [] { StoreItemsSize(results[start := out[0]], start + 1, out[1..]); }
  }

  lemma {:induction false} StoreItemsValues<R>(results: map<nat, R>, start: nat, out: seq<R>, i: nat)
    requires i in StoreItems(results, start, out)
    ensures if start <= i < start + |out| then StoreItems(results, start, out)[i] == out[i - start]
            else i in results && StoreItems(results, start, out)[i] == results[i]
    decreases |out|
  {
    if out != [] {
      StoreItemsValues(results[start := out[0]], start + 1, out[1..], i);
      StoreItemsKeys(results[start := out[0]], start + 1, out[1..]);
    }
  }

  lemma {:induction false} BatchSize<T>(cs: seq<Chunk<T>>)
    ensures |Batch(cs)| == Weigh(cs, Size())
  {
    if cs != [] { BatchSize(cs[1..]); }
  }

  /** The results that a batch of genuine, pairwise disjoint, fresh chunks may write. */
  ghost predicate Fresh<T, R>(results: map<nat, R>, cs: seq<Chunk<T>>) {
    && (forall i: nat :: Cover(cs, i) <= 1)
    && (forall i: nat :: i in results ==> Cover(cs, i) == 0)
  }

  ghost predicate Correct<T, R>(f: T -> R, items: seq<T>, results: map<nat, R>) {
    forall i: nat :: i in results ==> i < |items| && results[i] == f(items[i])
  }

  lemma StoreItemsCorrect<T, R>(f: T -> R, items: seq<T>, results: map<nat, R>, ch: Chunk<T>, part: seq<R>)
    requires Genuine(items, ch) && |part| <= |ch.items| && Correct(f, items, results)
    requires forall j :: 0 <= j < |part| ==> part[j] == f(ch.items[j])
    ensures Correct(f, items, StoreItems(results, ch.start, part))
  {
    var r := StoreItems(results, ch.start, part);
    StoreItemsKeys(results, ch.start, part);
    forall i: nat | i in r ensures i < |items| && r[i] == f(items[i]) {
      StoreItemsValues(results, ch.start, part, i);
      if ch.start <= i < ch.start + |part| { assert ch.items[i - ch.start] == items[i]; }
    }
  }

  /** Writing one chunk's share of the results. */
  lemma StoreChunk<T, R>(f: T -> R, items: seq<T>, results: map<nat, R>, ch: Chunk<T>, part: seq<R>)
    requires Genuine(items, ch) && |part| <= |ch.items| && Correct(f, items, results)
    requires forall i: nat :: Covers(ch, i) ==> i !in results
    requires forall j :: 0 <= j < |part| ==> part[j] == f(ch.items[j])
    ensures var r := StoreItems(results, ch.start, part);
            && Correct(f, items, r)
            && (forall i: nat :: i in results ==> i in r)
            && (forall i: nat :: i in r ==> i in results || Covers(ch, i))
            && |r| == |results| + |part|
  {
    StoreItemsKeys(results, ch.start, part);
    forall i | ch.start <= i < ch.start + |part| ensures i !in results { assert Covers(ch, i); }
    StoreItemsSize(results, ch.start, part);
    StoreItemsCorrect(f, items, results, ch, part);
  }

  /** A fresh batch is a fresh chunk followed by a batch that stays fresh once it is written. */
  lemma FreshSplit<T, R>(results: map<nat, R>, next: map<nat, R>, cs: seq<Chunk<T>>)
    requires cs != [] && Fresh(results, cs)
    requires forall i: nat :: i in next ==> i in results || Covers(cs[0], i)
    ensures Fresh(next, cs[1..])
    ensures forall i: nat :: Covers(cs[0], i) ==> Cover(cs, i) == 1 && i !in results
    ensures forall i: nat :: Cover(cs[1..], i) <= Cover(cs, i)
  {
    forall i: nat
      ensures Cover(cs[1..], i) <= Cover(cs, i) <= 1
      ensures i in next ==> Cover(cs[1..], i) == 0
      ensures Covers(cs[0], i) ==> Cover(cs, i) == 1 && i !in results
    {
      assert Cover(cs, i) == Holds(i)(cs[0]) + Cover(cs[1..], i);
    }
  }

  /** Writing a batch keeps every result right, covers only indices of the batch, and
      leaves out exactly as many of them as `_reconcile_chunk` reports. */
  lemma {:induction false} StoreSpec<T, R>(f: T -> R, items: seq<T>, results: map<nat, R>, cs: seq<Chunk<T>>,
        out: seq<R>)
    requires AllGenuine(items, cs) && Fresh(results, cs) && Correct(f, items, results)
    requires Agrees(f, Batch(cs), out)
    ensures var r := Store(results, cs, out);
            && Correct(f, items, r)
            && (forall i: nat :: i in results ==> i in r)
            && (forall i: nat :: i in r ==> i in results || Cover(cs, i) == 1)
            && |r| + Shortfall(Batch(cs), out) == |results| + |Batch(cs)|
    decreases |cs|
  {
    if cs != [] {
      var ch, b := cs[0], |cs[0].items|;
      FreshSplit(results, results, cs);
      StoreChunk(f, items, results, ch, Take(out, b));
      var next := StoreItems(results, ch.start, Take(out, b));
      FreshSplit(results, next, cs);
      StoreSpec(f, items, next, cs[1..], Drop(out, b));
    }
  }

  // ---------------------------------------------------------------- the invariant

  ghost predicate ShapeOk<T, R>(c: Config<T, R>, s: State<T, R>) {
    && |s.feeders| == c.feeders
    && AllGenuine(c.items, s.queue) && AllGenuine(c.items, s.hostHeld) && AllGenuine(c.items, s.done)
    && (s.host.HostGet? || s.host.HostSample? || s.host.HostExited? ==> s.hostHeld == [])
    && (s.host.HostPulling? || s.host.HostRunning? ==> s.hostHeld != [])
    && forall w :: 0 <= w < |s.feeders| ==> FeederOk(c, s.feeders[w])
  }

  ghost predicate FeederOk<T, R>(c: Config<T, R>, fd: Feeder<T>) {
    && AllGenuine(c.items, fd.held)
    && (fd.pc.FeederDead? ==> fd.held == [])
    && (fd.pc.FeederRunning? || fd.pc == FeederPulling(0) ==> fd.held != [])
  }

  ghost predicate AllDead<T>(fs: seq<Feeder<T>>, upTo: nat) {
    forall w :: 0 <= w < upTo && w < |fs| ==> fs[w].pc.FeederDead?
  }

  /** What the host has learnt about the threads by the time it is at each point. */
  ghost predicate ExitOk<T, R>(c: Config<T, R>, s: State<T, R>) {
    && (s.host.HostSample? ==> AllDead(s.feeders, s.host.next))
    && (s.host.HostExited? ==> AllDead(s.feeders, |s.feeders|))
    && (c.order.AliveThenEmpty? && s.host == HostGet(true) ==> AllDead(s.feeders, |s.feeders|))
    && (c.order.AliveThenEmpty? && s.host.HostExited? ==> s.queue == [])
  }

  ghost predicate Partition<T, R>(c: Config<T, R>, s: State<T, R>) {
    forall i: nat :: Total(s, Holds(i)) == if i < |c.items| then 1 else 0
  }

  ghost predicate ResultsOk<T, R>(c: Config<T, R>, s: State<T, R>) {
    && Correct(c.f, c.items, s.results)
    && (forall i: nat :: i in s.results ==> Cover(s.done, i) == 1)
    && |s.results| + s.missing == Weigh(s.done, Size())
  }

  ghost predicate Inv<T, R>(c: Config<T, R>, s: State<T, R>) {
    ShapeOk(c, s) && ExitOk(c, s) && Partition(c, s) && ResultsOk(c, s)
  }

  lemma InitInv<T, R>(c: Config<T, R>, pulls: seq<nat>)
    requires ValidConfig(c, pulls)
    ensures Inv(c, Init(c, pulls))
  {
    var s := Init(c, pulls);
    ChunksPartition(c.items, c.chunkSize, 0, 0);
    forall i: nat ensures Total(s, Holds(i)) == if i < |c.items| then 1 else 0 {
      ChunksPartition(c.items, c.chunkSize, 0, i);
      NoFeederWeight(s.feeders, Holds(i));
    }
  }

  lemma StepShape<T, R>(c: Config<T, R>, s: State<T, R>, step: Step<R>)
    requires ShapeOk(c, s) && ExitOk(c, s) && Enabled(c, s, step)
    ensures ShapeOk(c, Apply(c, s, step)) && ExitOk(c, Apply(c, s, step))
  {
    StepQueues(c, s, step);
    StepExit(c, s, step);
    var t := Apply(c, s, step);
    forall w | 0 <= w < |t.feeders| ensures FeederOk(c, t.feeders[w]) {
      StepFeeder(c, s, step, w);
    }
  }

  lemma StepFeeder<T, R>(c: Config<T, R>, s: State<T, R>, step: Step<R>, w: nat)
    requires ShapeOk(c, s) && Enabled(c, s, step) && w < |s.feeders|
    ensures FeederOk(c, Apply(c, s, step).feeders[w])
  {
    assert FeederOk(c, s.feeders[w]);
  }

  lemma StepQueues<T, R>(c: Config<T, R>, s: State<T, R>, step: Step<R>)
    requires ShapeOk(c, s) && Enabled(c, s, step)
    ensures var t := Apply(c, s, step);
            && |t.feeders| == c.feeders
            && AllGenuine(c.items, t.queue) && AllGenuine(c.items, t.hostHeld) && AllGenuine(c.items, t.done)
            && (t.host.HostGet? || t.host.HostSample? || t.host.HostExited? ==> t.hostHeld == [])
            && (t.host.HostPulling? || t.host.HostRunning? ==> t.hostHeld != [])
  {
    if step.FeederPull? || step.FeederFinish? || step.FeederFail? || step.FeederPut? {
      assert FeederOk(c, s.feeders[step.w]);
    }
  }

  lemma StepExit<T, R>(c: Config<T, R>, s: State<T, R>, step: Step<R>)
    requires ExitOk(c, s) && Enabled(c, s, step)
    requires step.FeederPut? ==> FeederOk(c, s.feeders[step.w])
    ensures ExitOk(c, Apply(c, s, step))
  {
  }

  lemma {:induction false} WeighLess<T>(fs: seq<Feeder<T>>, k: nat, w: Chunk<T> -> nat)
    requires k < |fs|
    ensures Weigh(fs[k].held, w) <= WeighFeeders(fs, w)
  {
    if k > 0 { WeighLess(fs[1..], k - 1, w); }
  }

  /** A batch in flight is fresh, so writing it is right. */
  lemma WriteKeeps<T, R>(c: Config<T, R>, s: State<T, R>, held: seq<Chunk<T>>, out: seq<R>)
    requires Inv(c, s) && AllGenuine(c.items, held) && Agrees(c.f, Batch(held), out)
    requires held == s.hostHeld || exists k :: 0 <= k < |s.feeders| && held == s.feeders[k].held
    ensures var r := Store(s.results, held, out);
            && Correct(c.f, c.items, r)
            && (forall i: nat :: i in r ==> Cover(s.done + held, i) == 1)
            && |r| + s.missing + Shortfall(Batch(held), out) == Weigh(s.done + held, Size())
  {
    forall i: nat ensures Cover(held, i) + Cover(s.done, i) <= Total(s, Holds(i)) {
      if held != s.hostHeld {
        var k :| 0 <= k < |s.feeders| && held == s.feeders[k].held;
        WeighLess(s.feeders, k, Holds(i));
      }
    }
    forall i: nat | i in s.results ensures Cover(held, i) == 0 {
      assert Cover(s.done, i) == 1;
    }
    StoreSpec(c.f, c.items, s.results, held, out);
    BatchSize(held);
    WeighAppend(s.done, held, Size());
    var r := Store(s.results, held, out);
    forall i: nat | i in r ensures Cover(s.done + held, i) == 1 {
      WeighAppend(s.done, held, Holds(i));
      if i in s.results { assert Cover(s.done, i) == 1; }
      else { assert Cover(held, i) + Cover(s.done, i) <= Total(s, Holds(i)); }
    }
  }

  lemma StepPartition<T, R>(c: Config<T, R>, s: State<T, R>, step: Step<R>)
    requires Partition(c, s) && Enabled(c, s, step)
    ensures Partition(c, Apply(c, s, step))
  {
    forall i: nat ensures Total(Apply(c, s, step), Holds(i)) == if i < |c.items| then 1 else 0 {
      StepConserves(c, s, step, Holds(i));
    }
  }

  lemma StepResults<T, R>(c: Config<T, R>, s: State<T, R>, step: Step<R>)
    requires Inv(c, s) && Enabled(c, s, step)
    ensures ResultsOk(c, Apply(c, s, step))
  {
    if step.HostFinish? {
      HostWrites(c, s, step);
    } else if step.FeederFinish? {
      FeederWrites(c, s, step);
    } else {
      NothingWritten(c, s, step);
    }
  }

  lemma HostWrites<T, R>(c: Config<T, R>, s: State<T, R>, step: Step<R>)
    requires Inv(c, s) && Enabled(c, s, step) && step.HostFinish?
    ensures ResultsOk(c, Apply(c, s, step))
  {
    WriteKeeps(c, s, s.hostHeld, step.out);
  }

  lemma FeederWrites<T, R>(c: Config<T, R>, s: State<T, R>, step: Step<R>)
    requires Inv(c, s) && Enabled(c, s, step) && step.FeederFinish?
    ensures ResultsOk(c, Apply(c, s, step))
  {
    assert FeederOk(c, s.feeders[step.w]);
    WriteKeeps(c, s, s.feeders[step.w].held, step.out);
  }

  lemma NothingWritten<T, R>(c: Config<T, R>, s: State<T, R>, step: Step<R>)
    requires ResultsOk(c, s) && Enabled(c, s, step) && !step.HostFinish? && !step.FeederFinish?
    ensures ResultsOk(c, Apply(c, s, step))
  {
    var t := Apply(c, s, step);
    assert t.results == s.results && t.done == s.done && t.missing == s.missing;
  }

  lemma StepInv<T, R>(c: Config<T, R>, s: State<T, R>, step: Step<R>)
    requires Inv(c, s) && Enabled(c, s, step)
    ensures Inv(c, Apply(c, s, step))
  {
    StepShape(c, s, step);
    StepPartition(c, s, step);
    StepResults(c, s, step);
  }

  lemma {:induction false} RunInv<T, R>(c: Config<T, R>, s: State<T, R>, steps: seq<Step<R>>, t: State<T, R>)
    requires Inv(c, s) && Run(c, s, steps, t)
    ensures Inv(c, t)
    decreases |steps|
  {
    if steps != [] {
      StepInv(c, s, steps[0]);
      RunInv(c, Apply(c, s, steps[0]), steps[1..], t);
    }
  }
}
