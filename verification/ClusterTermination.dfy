/** `cluster_map` terminates: the work of a run is bounded, nothing deadlocks, and once
    no work is left a few polls end the loop. */
module ClusterTermination {
  import opened ClusterMap
  import opened ClusterSafety

  /** Every step except the host's polling. */
  predicate IsWork<R>(step: Step<R>) {
    !step.GetTimeout? && !step.SampleThread?
  }

  function WorkCount<R>(steps: seq<Step<R>>): nat {
    if steps == [] then 0 else (if IsWork(steps[0]) then 1 else 0) + WorkCount(steps[1..])
  }

  function ChunkCount<T, R>(c: Config<T, R>): nat
    requires c.chunkSize >= 1
  {
    |Chunks(c.items, c.chunkSize, 0)|
  }

  // ---------------------------------------------------------------- the potential

  /** What a feeder may still cost: a live one may yet fail once and re-queue all it holds. */
  function FeederWork<T>(fd: Feeder<T>, chunks: nat): nat {
    match fd.pc
    case FeederPulling(_) => 2 * |fd.held| + 1 + (4 * chunks + 2)
    case FeederRunning => 2 * |fd.held| + (4 * chunks + 2)
    case FeederRequeue => 6 * |fd.held| + 1
    case FeederDead => 0
  }

  function FeedersWork<T>(fs: seq<Feeder<T>>, chunks: nat): nat {
    if fs == [] then 0 else FeederWork(fs[0], chunks) + FeedersWork(fs[1..], chunks)
  }

  function HostWork(pc: HostPc): nat {
    match pc
    case HostPulling(_) => 2
    case HostRunning => 1
    case _ => 0
  }

  function Potential<T, R>(s: State<T, R>, chunks: nat): nat {
    5 * |s.queue| + 2 * |s.hostHeld| + HostWork(s.host) + FeedersWork(s.feeders, chunks)
  }

  lemma {:induction false} WorkUpdate<T>(fs: seq<Feeder<T>>, k: nat, fd: Feeder<T>, chunks: nat)
    requires k < |fs|
    ensures FeedersWork(fs[k := fd], chunks) + FeederWork(fs[k], chunks)
            == FeedersWork(fs, chunks) + FeederWork(fd, chunks)
  {
    if k > 0 {
      assert fs[k := fd][1..] == fs[1..][k - 1 := fd];
      WorkUpdate(fs[1..], k - 1, fd, chunks);
    } else {
      assert fs[k := fd][1..] == fs[1..];
    }
  }

  /** A state whose chunks number at most `chunks`, with the shape every reachable state has. */
  ghost predicate Bounded<T, R>(c: Config<T, R>, s: State<T, R>, chunks: nat) {
    && ShapeOk(c, s) && ExitOk(c, s)
    && Total(s, One()) == chunks
  }

  lemma {:induction false} CountIsLength<T>(cs: seq<Chunk<T>>)
    ensures Weigh(cs, One()) == |cs|
  {
    if cs != [] { CountIsLength(cs[1..]); }
  }

  /** What a working step needs to lower the potential: a batch is never empty, and one
      feeder never holds more than all chunks. */
  ghost predicate Loaded<T, R>(s: State<T, R>, chunks: nat) {
    && (s.host.HostRunning? ==> s.hostHeld != [])
    && forall w :: 0 <= w < |s.feeders| ==>
      |s.feeders[w].held| <= chunks && (s.feeders[w].pc.FeederRunning? ==> s.feeders[w].held != [])
  }

  lemma ReachableLoaded<T, R>(c: Config<T, R>, s: State<T, R>, chunks: nat)
    requires Bounded(c, s, chunks)
    ensures Loaded(s, chunks)
  {
    forall w | 0 <= w < |s.feeders|
      ensures |s.feeders[w].held| <= chunks && (s.feeders[w].pc.FeederRunning? ==> s.feeders[w].held != [])
    {
      assert FeederOk(c, s.feeders[w]);
      WeighLess(s.feeders, w, One());
      CountIsLength(s.feeders[w].held);
    }
  }

  /** Every working step lowers the potential, and polling leaves it alone. */
  lemma StepLowers<T, R>(c: Config<T, R>, s: State<T, R>, step: Step<R>, chunks: nat)
    requires Loaded(s, chunks) && Enabled(c, s, step)
    ensures if IsWork(step) then Potential(Apply(c, s, step), chunks) < Potential(s, chunks)
            else Potential(Apply(c, s, step), chunks) == Potential(s, chunks)
  {
    if step.FeederPull? || step.FeederFinish? || step.FeederFail? || step.FeederPut? {
      var k := step.w;
      WorkUpdate(s.feeders, k, Apply(c, s, step).feeders[k], chunks);
      assert Apply(c, s, step).feeders == s.feeders[k := Apply(c, s, step).feeders[k]];
    }
  }

  lemma {:induction false} RunLowers<T, R>(c: Config<T, R>, s: State<T, R>, steps: seq<Step<R>>, t: State<T, R>,
        chunks: nat)
    requires Bounded(c, s, chunks) && Run(c, s, steps, t)
    ensures WorkCount(steps) + Potential(t, chunks) <= Potential(s, chunks)
    decreases |steps|
  {
    if steps != [] {
      ReachableLoaded(c, s, chunks);
      StepLowers(c, s, steps[0], chunks);
      StepShape(c, s, steps[0]);
      StepConserves(c, s, steps[0], One());
      RunLowers(c, Apply(c, s, steps[0]), steps[1..], t, chunks);
    }
  }

  lemma {:induction false} InitialWork<T>(fs: seq<Feeder<T>>, chunks: nat)
    requires forall k :: 0 <= k < |fs| ==> fs[k].pc.FeederPulling? && fs[k].held == []
    ensures FeedersWork(fs, chunks) == |fs| * (4 * chunks + 3)
  {
    if fs != [] {
      forall k | 0 <= k < |fs[1..]|
        ensures fs[1..][k].pc.FeederPulling? && fs[1..][k].held == []
      {
        assert fs[1..][k] == fs[k + 1];
      }
      InitialWork(fs[1..], chunks);
      assert |fs| * (4 * chunks + 3) == (|fs| - 1) * (4 * chunks + 3) + (4 * chunks + 3);
    }
  }

  /** The work of any run, finished or not, is bounded by its chunks and feeders. */
  lemma WorkIsBounded<T, R>(c: Config<T, R>, pulls: seq<nat>, steps: seq<Step<R>>, t: State<T, R>)
    requires Reaches(c, pulls, steps, t)
    ensures WorkCount(steps) <= 5 * ChunkCount(c) + c.feeders * (4 * ChunkCount(c) + 3)
  {
    var s := Init(c, pulls);
    var chunks := ChunkCount(c);
    InitInv(c, pulls);
    NoFeederWeight(s.feeders, One());
    CountIsLength(s.queue);
    InitialWork(s.feeders, chunks);
    RunLowers(c, s, steps, t, chunks);
  }

  // ---------------------------------------------------------------- progress

  /** No thread but the polling host can move. */
  ghost predicate Quiet<T, R(!new)>(c: Config<T, R>, s: State<T, R>) {
    forall step: Step<R> :: IsWork(step) ==> !Enabled(c, s, step)
  }

  /** Nothing deadlocks: when no work step is possible and the host still loops, every
      thread is dead, nothing is held, the host is polling, and a chunk can be queued only
      while it samples the threads. */
  lemma QuietMeansDrained<T, R(!new)>(c: Config<T, R>, pulls: seq<nat>, steps: seq<Step<R>>, s: State<T, R>)
    requires Reaches(c, pulls, steps, s) && Quiet(c, s) && !s.host.HostExited? && !s.host.HostRaised?
    ensures s.host.HostGet? || s.host.HostSample?
    ensures AllDead(s.feeders, |s.feeders|)
    ensures s.host.HostGet? ==> s.queue == []
    ensures WeighFeeders(s.feeders, One()) == 0 && s.hostHeld == []
  {
    InitInv(c, pulls);
    RunInv(c, Init(c, pulls), steps, s);
    forall w | 0 <= w < |s.feeders| ensures s.feeders[w].pc.FeederDead? && s.feeders[w].held == [] {
      assert FeederOk(c, s.feeders[w]);
      assert !Enabled(c, s, FeederPull(w));
      assert !Enabled(c, s, FeederFail(w));
      assert !Enabled(c, s, FeederPut(w));
    }
    NoFeederWeight(s.feeders, One());
    assert !Enabled(c, s, HostPull);
    assert !Enabled(c, s, HostRaise);
    assert !Enabled(c, s, GetFirst(1));
  }

  /** The host has left its loop, or finds a chunk to take. */
  predicate Settled<T, R>(s: State<T, R>) {
    s.host.HostExited? || (s.host.HostGet? && s.queue != [])
  }

  /** How many polls are left until then once every thread is dead. */
  function Polls<T, R>(c: Config<T, R>, s: State<T, R>): nat {
    match s.host
    case HostGet(allDead) =>
      if s.queue != [] then 0
      else if c.order.EmptyThenAlive? then |s.feeders| + 2 else if allDead then 1 else |s.feeders| + 3
    case HostSample(j) =>
      if j > |s.feeders| then 0
      else if c.order.EmptyThenAlive? || s.queue != [] then |s.feeders| + 1 - j else |s.feeders| + 2 - j
    case _ => 0
  }

  /** Every thread is dead, and the host polls, has found a chunk or has left. */
  ghost predicate Polling<T, R>(c: Config<T, R>, s: State<T, R>) {
    && AllDead(s.feeders, |s.feeders|)
    && (s.host.HostSample? ==> s.host.next <= |s.feeders|)
    && (s.host.HostGet? || s.host.HostSample? || s.host.HostExited?)
  }

  lemma PollStep<T, R>(c: Config<T, R>, s: State<T, R>, step: Step<R>)
    requires Polling(c, s) && Enabled(c, s, step) && !Settled(s)
    ensures !IsWork(step) && Polling(c, Apply(c, s, step)) && Polls(c, Apply(c, s, step)) < Polls(c, s)
    ensures (c.order.EmptyThenAlive? || s.queue == []) && Polls(c, Apply(c, s, step)) == 0
            ==> Apply(c, s, step).host.HostExited?
    ensures Apply(c, s, step).queue == s.queue
  {
  }

  lemma SettledOrPolls<T, R>(c: Config<T, R>, s: State<T, R>)
    requires Polling(c, s)
    ensures Polls(c, s) == 0 <==> Settled(s)
    ensures !Settled(s) ==> exists step: Step<R> :: Enabled(c, s, step) && !IsWork(step)
  {
    if s.host.HostGet? && s.queue == [] { assert Enabled(c, s, GetTimeout); }
    if s.host.HostSample? { assert Enabled(c, s, SampleThread); }
  }

  /** Then every step is a poll, each poll counts down, a further one is always possible, and
      at zero the host has left its loop or finds a chunk. */
  lemma {:induction false} PollingExits<T, R>(c: Config<T, R>, s: State<T, R>, steps: seq<Step<R>>, t: State<T, R>)
    requires Polling(c, s) && Run(c, s, steps, t) && forall k :: 0 <= k < |steps| ==> !IsWork(steps[k])
    ensures Polling(c, t) && t.queue == s.queue && |steps| + Polls(c, t) <= Polls(c, s)
    ensures Polls(c, t) == 0 <==> Settled(t)
    ensures !Settled(t) ==> exists step: Step<R> :: Enabled(c, t, step) && !IsWork(step)
    decreases |steps|
  {
    if steps == [] {
      SettledOrPolls(c, t);
    } else {
      assert !IsWork(steps[0]);
      PollStep(c, s, steps[0]);
      PollingExits(c, Apply(c, s, steps[0]), steps[1..], t);
    }
  }

  /** The states in which polling can only end by leaving the loop. */
  ghost predicate Leaving<T, R>(c: Config<T, R>, s: State<T, R>) {
    Polling(c, s) && (s.host.HostGet? ==> s.queue == []) && (c.order.EmptyThenAlive? || s.queue == [])
  }

  lemma {:induction false} LeavingExits<T, R>(c: Config<T, R>, s: State<T, R>, steps: seq<Step<R>>, t: State<T, R>)
    requires Leaving(c, s) && Run(c, s, steps, t)
    ensures Leaving(c, t) && |steps| + Polls(c, t) <= Polls(c, s)
    ensures Polls(c, t) == 0 <==> t.host.HostExited?
    ensures !t.host.HostExited? ==> exists step: Step<R> :: Enabled(c, t, step)
    decreases |steps|
  {
    if steps == [] {
      SettledOrPolls(c, t);
    } else {
      PollStep(c, s, steps[0]);
      LeavingExits(c, Apply(c, s, steps[0]), steps[1..], t);
    }
  }

  /** So, whatever the interleaving so far: once no work step is possible, every schedule of the
      coded order, whether a chunk is still queued or not, leaves the loop after at most
      feeders + 2 polls and is never stuck before that. */
  lemma QuietExits<T, R(!new)>(c: Config<T, R>, pulls: seq<nat>, past: seq<Step<R>>, s: State<T, R>,
        steps: seq<Step<R>>, t: State<T, R>)
    requires c.order.EmptyThenAlive? && Reaches(c, pulls, past, s) && Quiet(c, s)
    requires !s.host.HostExited? && !s.host.HostRaised? && Run(c, s, steps, t)
    ensures |steps| + Polls(c, t) <= c.feeders + 2 && (Polls(c, t) == 0 <==> t.host.HostExited?)
    ensures !t.host.HostExited? ==> exists step: Step<R> :: Enabled(c, t, step)
  {
    QuietIsPolling(c, pulls, past, s);
    LeavingExits(c, s, steps, t);
  }

  /** The quiet states are polling states, with a chunk queued only while the host samples. */
  lemma QuietIsPolling<T, R(!new)>(c: Config<T, R>, pulls: seq<nat>, past: seq<Step<R>>, s: State<T, R>)
    requires Reaches(c, pulls, past, s) && Quiet(c, s) && !s.host.HostExited? && !s.host.HostRaised?
    ensures Polling(c, s) && !Settled(s) && |s.feeders| == c.feeders && Polls(c, s) <= c.feeders + 3
    ensures c.order.EmptyThenAlive? ==> Leaving(c, s) && Polls(c, s) <= c.feeders + 2
  {
    QuietMeansDrained(c, pulls, past, s);
    InitInv(c, pulls);
    RunInv(c, Init(c, pulls), past, s);
    SamplesInRange(c, pulls, past, s);
  }

  ghost predicate InRange<T, R>(s: State<T, R>) {
    s.host.HostSample? ==> s.host.next <= |s.feeders|
  }

  lemma {:induction false} RunInRange<T, R>(c: Config<T, R>, s: State<T, R>, steps: seq<Step<R>>, t: State<T, R>)
    requires InRange(s) && Run(c, s, steps, t)
    ensures InRange(t)
    decreases |steps|
  {
    if steps != [] { RunInRange(c, Apply(c, s, steps[0]), steps[1..], t); }
  }

  lemma SamplesInRange<T, R>(c: Config<T, R>, pulls: seq<nat>, steps: seq<Step<R>>, s: State<T, R>)
    requires Reaches(c, pulls, steps, s)
    ensures InRange(s)
  {
    RunInRange(c, Init(c, pulls), steps, s);
  }

  // ---------------------------------------------------------------- re-queueing

  /** How often a run has feeder w put back a chunk that holds index i. */
  function PutsBack<T(==), R(==)>(c: Config<T, R>, s: State<T, R>, steps: seq<Step<R>>, t: State<T, R>, w: nat,
        i: nat): nat
    requires Run(c, s, steps, t) && w < |s.feeders|
    decreases |steps|
  {
    if steps == [] then 0
    else
      (if PutsBackNow(s, steps[0], w, i) then 1 else 0)
      + PutsBack(c, Apply(c, s, steps[0]), steps[1..], t, w, i)
  }

  /** What feeder w can still put back: nothing once it is dead. */
  function MayPutBack<T>(fd: Feeder<T>, i: nat): nat {
    if fd.pc.FeederDead? then 0 else if fd.pc.FeederRequeue? then Cover(fd.held, i) else 1
  }

  predicate PutsBackNow<T, R(==)>(s: State<T, R>, step: Step<R>, w: nat, i: nat)
    requires w < |s.feeders|
  {
    step == FeederPut(w) && s.feeders[w].held != [] && Covers(s.feeders[w].held[0], i)
  }

  lemma PutsBackStep<T, R>(c: Config<T, R>, s: State<T, R>, step: Step<R>, w: nat, i: nat)
    requires Enabled(c, s, step) && w < |s.feeders| && Cover(s.feeders[w].held, i) <= 1
    ensures (if PutsBackNow(s, step, w, i) then 1 else 0) + MayPutBack(Apply(c, s, step).feeders[w], i)
            <= MayPutBack(s.feeders[w], i)
  {
  }

  lemma {:induction false} PutsBackBound<T, R>(c: Config<T, R>, s: State<T, R>, steps: seq<Step<R>>, t: State<T, R>,
        w: nat, i: nat)
    requires Inv(c, s) && Run(c, s, steps, t) && w < |s.feeders|
    ensures PutsBack(c, s, steps, t, w, i) <= MayPutBack(s.feeders[w], i)
    decreases |steps|
  {
    if steps != [] {
      WeighLess(s.feeders, w, Holds(i));
      assert Total(s, Holds(i)) <= 1;
      PutsBackStep(c, s, steps[0], w, i);
      StepInv(c, s, steps[0]);
      PutsBackBound(c, Apply(c, s, steps[0]), steps[1..], t, w, i);
    }
  }

  /** Each chunk is re-queued at most once by each feeder. */
  lemma RequeuedOncePerFeeder<T, R>(c: Config<T, R>, pulls: seq<nat>, steps: seq<Step<R>>, t: State<T, R>, w: nat,
        i: nat)
    requires Reaches(c, pulls, steps, t) && w < c.feeders
    ensures PutsBack(c, Init(c, pulls), steps, t, w, i) <= 1
  {
    InitInv(c, pulls);
    PutsBackBound(c, Init(c, pulls), steps, t, w, i);
  }
}
