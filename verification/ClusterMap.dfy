/** The dispatch protocol of `cluster_map` (gb_cluster.py): a host thread and a
    number of feeder threads drain one FIFO of index chunks.

    The threads are modelled as a state machine whose steps are the atomic actions
    of the source (one queue `get`, one queue `put`, one locked result write, one
    liveness sample); a run is any interleaving of them.  Two exit tests are
    modelled: the one the source has, which sees the queue empty and only then
    samples the threads, and the same test with the two reads exchanged. */
module ClusterMap {
  import opened Basics

  /** One queue entry: the index of its first item, and the items. */
  datatype Chunk<+T> = Chunk(start: nat, items: seq<T>)

  datatype Order = EmptyThenAlive | AliveThenEmpty

  /** `f` is what every worker computes for one item. */
  datatype Config<!T, !R> = Config(items: seq<T>, f: T -> R, chunkSize: nat, feeders: nat, order: Order)

  datatype HostPc =
    | HostGet(allDead: bool)     // about to call q.get(timeout)
    | HostPulling(left: nat)     // non-blocking gets still allowed
    | HostRunning                // inside run_local
    | HostSample(next: nat)      // about to sample threads[next].is_alive()
    | HostExited                 // left the loop
    | HostRaised                 // run_local raised

  datatype FeederPc = FeederPulling(left: nat) | FeederRunning | FeederRequeue | FeederDead

  datatype Feeder<+T> = Feeder(pc: FeederPc, held: seq<Chunk<T>>)

  /** `done` records the chunks whose batch was written, `missing` the shortfalls
      that `_reconcile_chunk` reported. */
  datatype State<+T, +R> = State(
    queue: seq<Chunk<T>>, host: HostPc, hostHeld: seq<Chunk<T>>, feeders: seq<Feeder<T>>,
    results: map<nat, R>, done: seq<Chunk<T>>, missing: nat)

  datatype Step<+R> =
    | GetFirst(pull: nat)                        // host: blocking get returns a chunk
    | GetTimeout                                 // host: blocking get raises queue.Empty
    | SampleThread                               // host: one is_alive()
    | HostPull                                   // host: one get_nowait
    | HostFinish(out: seq<R>)                    // host: write the batch
    | HostRaise                                  // host: run_local raises
    | FeederPull(w: nat)                         // feeder: one get_nowait
    | FeederFinish(w: nat, out: seq<R>, pull: nat) // feeder: write the batch, start the next round
    | FeederFail(w: nat)                         // feeder: run_remote raises
    | FeederPut(w: nat)                          // feeder: re-queue one chunk, or die

  // ---------------------------------------------------------------- chunking

  function Chunks<T>(items: seq<T>, size: nat, idx: nat): seq<Chunk<T>>
    requires size >= 1 && idx <= |items|
    decreases |items| - idx
  {
    if idx == |items| then []
    else
      var end := Min(idx + size, |items|);
      [Chunk(idx, items[idx..end])] + Chunks(items, size, end)
  }

  method EnqueueChunks<T>(items: seq<T>, size: nat) returns (q: seq<Chunk<T>>)
    requires size >= 1
    ensures q == Chunks(items, size, 0)
  {
    q := [];
    var idx := 0;
    while idx < |items|
      invariant 0 <= idx <= |items|
      invariant q + Chunks(items, size, idx) == Chunks(items, size, 0)
    {
      var end := Min(idx + size, |items|);
      var rest := Chunks(items, size, end);
      assert q + Chunks(items, size, idx) == (q + [Chunk(idx, items[idx..end])]) + rest;
      q := q + [Chunk(idx, items[idx..end])];
      idx := end;
    }
  }

  // ---------------------------------------------------------------- storing

  /** The items of a pulled batch in order. */
  function Batch<T>(pulled: seq<Chunk<T>>): seq<T> {
    if pulled == [] then [] else pulled[0].items + Batch(pulled[1..])
  }

  /** Python's `out[lo:hi]`, clamped at both ends. */
  function Slice<R>(out: seq<R>, lo: nat, hi: nat): seq<R>
    requires lo <= hi
  {
    out[Min(lo, |out|)..Min(hi, |out|)]
  }

  function StoreItems<R>(results: map<nat, R>, start: nat, out: seq<R>): map<nat, R>
    decreases |out|
  {
    if out == [] then results else StoreItems(results[start := out[0]], start + 1, out[1..])
  }

  function Take<R>(out: seq<R>, k: nat): seq<R> {
    out[..Min(k, |out|)]
  }

  function Drop<R>(out: seq<R>, k: nat): seq<R> {
    out[Min(k, |out|)..]
  }

  function Store<T, R>(results: map<nat, R>, pulled: seq<Chunk<T>>, out: seq<R>): map<nat, R>
    decreases |pulled|
  {
    if pulled == [] then results
    else
      var b := |pulled[0].items|;
      Store(StoreItems(results, pulled[0].start, Take(out, b)), pulled[1..], Drop(out, b))
  }

  method StorePart<R>(results: map<nat, R>, start: nat, part: seq<R>) returns (r: map<nat, R>)
    ensures r == StoreItems(results, start, part)
  {
    r := results;
    for j := 0 to |part|
      invariant StoreItems(r, start + j, part[j..]) == StoreItems(results, start, part)
    {
      assert part[j..][1..] == part[j + 1..];
      r := r[start + j := part[j]];
    }
  }

  /** What the chunks from k on still add, when `offset` results are used up. */
  function StoreFrom<T, R>(results: map<nat, R>, pulled: seq<Chunk<T>>, out: seq<R>, k: nat, offset: nat): map<nat, R>
    requires k <= |pulled|
  {
    Store(results, pulled[k..], Drop(out, offset))
  }

  lemma StoreStep<T, R>(r: map<nat, R>, pulled: seq<Chunk<T>>, out: seq<R>, k: nat, offset: nat, part: seq<R>)
    requires k < |pulled| && part == Slice(out, offset, offset + |pulled[k].items|)
    ensures StoreFrom(r, pulled, out, k, offset)
            == StoreFrom(StoreItems(r, pulled[k].start, part), pulled, out, k + 1, offset + |pulled[k].items|)
  {
    var b := |pulled[k].items|;
    assert pulled[k..][1..] == pulled[k + 1..];
    assert Slice(out, offset, offset + b) == Take(Drop(out, offset), b);
    assert Drop(Drop(out, offset), b) == Drop(out, offset + b);
  }

  lemma StoreEnds<T, R>(r: map<nat, R>, pulled: seq<Chunk<T>>, out: seq<R>, offset: nat)
    ensures StoreFrom(r, pulled, out, |pulled|, offset) == r
    ensures StoreFrom(r, pulled, out, 0, 0) == Store(r, pulled, out)
  {
    assert Drop(out, 0) == out && pulled[0..] == pulled;
  }

  /** The write-back loop that both the host and the feeders run under `res_lock`; the inner
      one stores a chunk's part. */
  method StoreResults<T, R>(results: map<nat, R>, pulled: seq<Chunk<T>>, out: seq<R>) returns (r: map<nat, R>)
    ensures r == Store(results, pulled, out)
  {
    r := results;
    var offset: nat := 0;
    StoreEnds(results, pulled, out, 0);
    for k := 0 to |pulled|
      invariant StoreFrom(r, pulled, out, k, offset) == Store(results, pulled, out)
    {
      var b := |pulled[k].items|;
      var part := Slice(out, offset, offset + b);
      StoreStep(r, pulled, out, k, offset, part);
      r := StorePart(r, pulled[k].start, part);
      offset := offset + b;
    }
    StoreEnds(r, pulled, out, offset);
  }

  /** `_reconcile_chunk`: how many results a worker owes. */
  function Shortfall<T, R>(batch: seq<T>, out: seq<R>): nat {
    if |out| < |batch| then |batch| - |out| else 0
  }

  /** As far as it goes, a worker's list is right. */
  predicate Agrees<T, R(==)>(f: T -> R, batch: seq<T>, out: seq<R>) {
    forall j :: 0 <= j < Min(|batch|, |out|) ==> out[j] == f(batch[j])
  }

  // ---------------------------------------------------------------- steps

  predicate Working(pc: FeederPc) {
    pc.FeederPulling? || pc.FeederRunning?
  }

  function Init<T, R>(c: Config<T, R>, pulls: seq<nat>): State<T, R>
    requires c.chunkSize >= 1 && |pulls| == c.feeders
  {
    State(Chunks(c.items, c.chunkSize, 0), LoopTop(c.order), [],
          seq(c.feeders, w requires 0 <= w < c.feeders => Feeder(FeederPulling(pulls[w]), [])),
          map[], [], 0)
  }

  /** Where the host's loop starts over. */
  function LoopTop(order: Order): HostPc {
    if order.EmptyThenAlive? then HostGet(false) else HostSample(0)
  }

  predicate Enabled<T, R(==)>(c: Config<T, R>, s: State<T, R>, step: Step<R>) {
    match step
    case GetFirst(pull) => s.host.HostGet? && s.queue != [] && pull >= 1
    case GetTimeout => s.host.HostGet? && s.queue == []
    case SampleThread => s.host.HostSample?
    case HostPull => s.host.HostPulling?
    case HostFinish(out) => s.host.HostRunning? && Agrees(c.f, Batch(s.hostHeld), out)
    case HostRaise => s.host.HostRunning?
    case FeederPull(w) => w < |s.feeders| && s.feeders[w].pc.FeederPulling?
    case FeederFinish(w, out, pull) =>
      w < |s.feeders| && s.feeders[w].pc.FeederRunning? && pull >= 1 && Agrees(c.f, Batch(s.feeders[w].held), out)
    case FeederFail(w) => w < |s.feeders| && s.feeders[w].pc.FeederRunning?
    case FeederPut(w) => w < |s.feeders| && s.feeders[w].pc.FeederRequeue?
  }

  function AfterTimeout(order: Order, allDead: bool): HostPc {
    if order.EmptyThenAlive? then HostSample(0) else if allDead then HostExited else HostSample(0)
  }

  /** `any(t.is_alive() for t in threads)`, one thread at a time. */
  function AfterSample<T>(order: Order, feeders: seq<Feeder<T>>, next: nat): HostPc {
    if next < |feeders| then
      if feeders[next].pc != FeederDead then HostGet(false) else HostSample(next + 1)
    else if order.EmptyThenAlive? then HostExited
    else HostGet(true)
  }

  function Apply<T, R(==)>(c: Config<T, R>, s: State<T, R>, step: Step<R>): State<T, R>
    requires Enabled(c, s, step)
  {
    match step
    case GetFirst(pull) =>
      s.(queue := s.queue[1..], hostHeld := s.hostHeld + [s.queue[0]], host := HostPulling(pull - 1))
    case GetTimeout => s.(host := AfterTimeout(c.order, s.host.allDead))
    case SampleThread => s.(host := AfterSample(c.order, s.feeders, s.host.next))
    case HostPull =>
      if s.host.left > 0 && s.queue != [] then
        s.(queue := s.queue[1..], hostHeld := s.hostHeld + [s.queue[0]], host := HostPulling(s.host.left - 1))
      else s.(host := HostRunning)
    case HostFinish(out) =>
      s.(results := Store(s.results, s.hostHeld, out), done := s.done + s.hostHeld, hostHeld := [],
         missing := s.missing + Shortfall(Batch(s.hostHeld), out), host := LoopTop(c.order))
    case HostRaise => s.(host := HostRaised)
    case FeederPull(w) =>
      var fd := s.feeders[w];
      if fd.pc.left > 0 && s.queue != [] then
        s.(queue := s.queue[1..],
           feeders := s.feeders[w := Feeder(FeederPulling(fd.pc.left - 1), fd.held + [s.queue[0]])])
      else s.(feeders := s.feeders[w := fd.(pc := if fd.held == [] then FeederDead else FeederRunning)])
    case FeederFinish(w, out, pull) =>
      var fd := s.feeders[w];
      s.(results := Store(s.results, fd.held, out), done := s.done + fd.held,
         missing := s.missing + Shortfall(Batch(fd.held), out),
         feeders := s.feeders[w := Feeder(FeederPulling(pull), [])])
    case FeederFail(w) => s.(feeders := s.feeders[w := s.feeders[w].(pc := FeederRequeue)])
    case FeederPut(w) =>
      var fd := s.feeders[w];
      if fd.held == [] then s.(feeders := s.feeders[w := fd.(pc := FeederDead)])
      else s.(queue := s.queue + [fd.held[0]], feeders := s.feeders[w := fd.(held := fd.held[1..])])
  }

  /** Runs: `steps` are enabled one after the other from `s` and end in `t`. */
  predicate Run<T(==), R(==)>(c: Config<T, R>, s: State<T, R>, steps: seq<Step<R>>, t: State<T, R>)
    decreases |steps|
  {
    if steps == [] then s == t
    else Enabled(c, s, steps[0]) && Run(c, Apply(c, s, steps[0]), steps[1..], t)
  }

  predicate ValidConfig<T, R>(c: Config<T, R>, pulls: seq<nat>) {
    c.chunkSize >= 1 && |pulls| == c.feeders && forall w :: 0 <= w < |pulls| ==> pulls[w] >= 1
  }

  /** `t` is reached from the start by `steps`. */
  predicate Reaches<T(==), R(==)>(c: Config<T, R>, pulls: seq<nat>, steps: seq<Step<R>>, t: State<T, R>) {
    ValidConfig(c, pulls) && Run(c, Init(c, pulls), steps, t)
  }

  /** `[results[i] for i in range(n)]`; None is the KeyError. */
  function Returned<T, R>(c: Config<T, R>, s: State<T, R>): Option<seq<R>> {
    if forall i :: 0 <= i < |c.items| ==> i in s.results
    then Some(seq(|c.items|, i requires 0 <= i < |c.items| && i in s.results => s.results[i]))
    else None
  }

  function MapF<T, R>(f: T -> R, items: seq<T>): seq<R> {
    seq(|items|, i requires 0 <= i < |items| => f(items[i]))
  }
}
