/** What `cluster_map` (gb_cluster.py) does with its queue: how many chunks it makes, and in
    what order and in batches of what size they are taken. */
module ClusterQueue {
  import opened Basics
  import opened ClusterMap
  import opened ClusterSafety
  import opened ClusterResult

  // ---------------------------------------------------------------- how many chunks

  const DEFAULT_CHUNK: nat := 4

  /** `max(1, min(_DEFAULT_CHUNK, -(-n // participants)))`; `/` rounds down here, as `//` does. */
  function AutoChunkSize(n: nat, participants: nat): nat
    requires participants >= 1
  {
    Max(1, Min(DEFAULT_CHUNK, 0 - (0 - n) / participants))
  }

  /** The least size with which every participant can have at most one chunk, within 1 .. 4. */
  lemma AutoChunkSizeSpec(n: nat, participants: nat)
    requires participants >= 1
    ensures var size := AutoChunkSize(n, participants);
            && 1 <= size <= 4
            && (size < 4 ==> size * participants >= n)
            && (size > 1 ==> (size - 1) * participants < n)
  {
    var size, up := AutoChunkSize(n, participants), 0 - (0 - n) / participants;
    assert up * participants >= n && (up - 1) * participants < n;
    if size < up { AtMostTimes(size, up - 1, participants); }
  }

  lemma AtMostTimes(a: int, b: int, c: nat)
    requires a <= b
    ensures a * c <= b * c
  {
  }

  lemma OneLess(k: int, size: nat)
    ensures (k + 1) * size == k * size + size
  {
  }

  /** The number of chunks is the number of items over the size, rounded up. */
  lemma {:induction false} ChunkNumber<T>(items: seq<T>, size: nat, idx: nat)
    requires size >= 1 && idx < |items|
    ensures (|Chunks(items, size, idx)| - 1) * size < |items| - idx <= |Chunks(items, size, idx)| * size
    decreases |items| - idx
  {
    var end := Min(idx + size, |items|);
    var later := |Chunks(items, size, end)|;
    assert |Chunks(items, size, idx)| == later + 1;
    if end < |items| {
      ChunkNumber(items, size, end);
      OneLess(later, size);
      OneLess(later - 1, size);
    } else {
      assert later == 0;
    }
  }

  lemma AtLeastIff(k: nat, p: nat, size: nat, n: nat)
    requires (k - 1) * size < n <= k * size
    ensures k >= p <==> (p - 1) * size < n
  {
    if k >= p { AtMostTimes(p - 1, k - 1, size); } else { AtMostTimes(k, p - 1, size); }
  }

  /** The automatic size is there to give every participant a chunk when there are items enough.
      It does exactly if there are no more items than participants, or more than all but one of
      them take up. */
  lemma EveryoneHasAChunkIff<T>(items: seq<T>, participants: nat)
    requires items != [] && participants >= 1
    ensures var size := AutoChunkSize(|items|, participants);
            size >= 1
            && (|Chunks(items, size, 0)| >= Min(|items|, participants)
                <==> |items| <= participants || (participants - 1) * size < |items|)
  {
    var size := AutoChunkSize(|items|, participants);
    AutoChunkSizeSpec(|items|, participants);
    ChunkNumber(items, size, 0);
    var k := |Chunks(items, size, 0)|;
    if |items| <= participants {
      if size > 1 { AtMostTimes(1, size - 1, participants); }
    } else {
      AtLeastIff(k, participants, size, |items|);
    }
  }

  /** Six items for a host and three feeders make three chunks: somebody gets none. */
  lemma SixForFour<T>(items: seq<T>)
    requires |items| == 6
    ensures AutoChunkSize(6, 4) == 2 && |Chunks(items, 2, 0)| == 3
  {
    ChunkNumber(items, 2, 0);
  }

  // ---------------------------------------------------------------- first in, first out

  /** The chunks that feeders put back in a run, in order. */
  function PutBack<T(==), R(==)>(c: Config<T, R>, s: State<T, R>, steps: seq<Step<R>>, t: State<T, R>): seq<Chunk<T>>
    requires Run(c, s, steps, t)
    decreases |steps|
  {
    if steps == [] then []
    else
      (if Requeues(s, steps[0]) then [s.feeders[steps[0].w].held[0]] else [])
      + PutBack(c, Apply(c, s, steps[0]), steps[1..], t)
  }

  /** One step takes the first chunk of the queue, appends one, or leaves it alone. */
  lemma QueueStep<T, R>(c: Config<T, R>, s: State<T, R>, step: Step<R>) returns (k: nat)
    requires Enabled(c, s, step)
    ensures k <= 1 && k <= |s.queue|
    ensures Apply(c, s, step).queue
            == s.queue[k..] + if Requeues(s, step) then [s.feeders[step.w].held[0]] else []
  {
    var t := Apply(c, s, step);
    k := if |t.queue| < |s.queue| then 1 else 0;
    assert s.queue[0..] == s.queue && s.queue + [] == s.queue;
    assert s.queue[k..] + [] == s.queue[k..];
  }

  lemma Shifts<T>(q: seq<T>, k: nat, x: seq<T>, later: seq<T>, n: nat)
    requires k <= |q| && n <= |q[k..] + x + later|
    ensures k + n <= |q + (x + later)| && (q[k..] + x + later)[n..] == (q + (x + later))[k + n..]
  {
  }

  /** The queue is first in, first out: over any run what is left in it is what was there and
      then what was put back, in order, less as many chunks as were taken from the front. */
  lemma {:induction false} FirstInFirstOut<T, R>(c: Config<T, R>, s: State<T, R>, steps: seq<Step<R>>, t: State<T, R>)
    returns (k: nat)
    requires Run(c, s, steps, t)
    ensures k <= |s.queue + PutBack(c, s, steps, t)| && t.queue == (s.queue + PutBack(c, s, steps, t))[k..]
    decreases |steps|
  {
    if steps == [] {
      k := 0;
      assert (s.queue + [])[0..] == s.queue;
    } else {
      var next := Apply(c, s, steps[0]);
      var taken := QueueStep(c, s, steps[0]);
      k := FirstInFirstOut(c, next, steps[1..], t);
      Shifts(s.queue, taken, if Requeues(s, steps[0]) then [s.feeders[steps[0].w].held[0]] else [],
             PutBack(c, next, steps[1..], t), k);
      k := taken + k;
    }
  }

  /** So as long as no feeder fails, the chunks are taken in the order of the list. */
  lemma InListOrder<T, R>(c: Config<T, R>, pulls: seq<nat>, steps: seq<Step<R>>, t: State<T, R>) returns (k: nat)
    requires Reaches(c, pulls, steps, t)
    requires forall j :: 0 <= j < |steps| ==> !steps[j].FeederPut?
    ensures k <= |Chunks(c.items, c.chunkSize, 0)| && t.queue == Chunks(c.items, c.chunkSize, 0)[k..]
  {
    k := FirstInFirstOut(c, Init(c, pulls), steps, t);
    NothingPutBack(c, Init(c, pulls), steps, t);
    var chunks := Chunks(c.items, c.chunkSize, 0);
    assert chunks + [] == chunks;
  }

  lemma {:induction false} NothingPutBack<T, R>(c: Config<T, R>, s: State<T, R>, steps: seq<Step<R>>, t: State<T, R>)
    requires Run(c, s, steps, t) && forall j :: 0 <= j < |steps| ==> !steps[j].FeederPut?
    ensures PutBack(c, s, steps, t) == []
    decreases |steps|
  {
    if steps != [] {
      assert forall j :: 0 <= j < |steps[1..]| ==> steps[1..][j] == steps[j + 1];
      NothingPutBack(c, Apply(c, s, steps[0]), steps[1..], t);
    }
  }

  // ---------------------------------------------------------------- batches

  predicate StepLimited<R>(step: Step<R>, limit: nat) {
    && (step.GetFirst? ==> step.pull <= limit)
    && (step.FeederFinish? ==> step.pull <= limit)
  }

  /** Nobody holds more than the limit, or will once the pulls of the round are used up. */
  predicate Limited<T, R>(s: State<T, R>, limit: nat) {
    && |s.hostHeld| + (if s.host.HostPulling? then s.host.left else 0) <= limit
    && (s.host.HostGet? ==> s.hostHeld == [])
    && forall w :: 0 <= w < |s.feeders| ==> FeederLimited(s.feeders[w], limit)
  }

  predicate FeederLimited<T>(fd: Feeder<T>, limit: nat) {
    |fd.held| + (if fd.pc.FeederPulling? then fd.pc.left else 0) <= limit
  }

  lemma StepKeepsLimit<T, R>(c: Config<T, R>, s: State<T, R>, step: Step<R>, limit: nat)
    requires ShapeOk(c, s) && ExitOk(c, s) && Enabled(c, s, step) && Limited(s, limit) && StepLimited(step, limit)
    ensures Limited(Apply(c, s, step), limit)
  {
    StepShape(c, s, step);
    var t := Apply(c, s, step);
    forall w | 0 <= w < |t.feeders| ensures FeederLimited(t.feeders[w], limit) {
      assert FeederLimited(s.feeders[w], limit);
    }
  }

  lemma {:induction false} RunKeepsLimit<T, R>(c: Config<T, R>, s: State<T, R>, steps: seq<Step<R>>, t: State<T, R>,
        limit: nat)
    requires Inv(c, s) && Run(c, s, steps, t) && Limited(s, limit)
    requires forall j :: 0 <= j < |steps| ==> StepLimited(steps[j], limit)
    ensures Limited(t, limit)
    decreases |steps|
  {
    if steps != [] {
      assert forall j :: 0 <= j < |steps[1..]| ==> steps[1..][j] == steps[j + 1];
      StepKeepsLimit(c, s, steps[0], limit);
      StepInv(c, s, steps[0]);
      RunKeepsLimit(c, Apply(c, s, steps[0]), steps[1..], t, limit);
    }
  }

  /** Nobody ever holds more chunks than the largest number of pulls allowed in a round. */
  lemma NoBatchExceedsPulls<T, R>(c: Config<T, R>, pulls: seq<nat>, steps: seq<Step<R>>, t: State<T, R>, limit: nat)
    requires Reaches(c, pulls, steps, t)
    requires forall w :: 0 <= w < |pulls| ==> pulls[w] <= limit
    requires forall j :: 0 <= j < |steps| ==> StepLimited(steps[j], limit)
    ensures |t.hostHeld| <= limit && forall w :: 0 <= w < |t.feeders| ==> |t.feeders[w].held| <= limit
  {
    InitInv(c, pulls);
    RunKeepsLimit(c, Init(c, pulls), steps, t, limit);
    forall w | 0 <= w < |t.feeders| ensures |t.feeders[w].held| <= limit {
      assert FeederLimited(t.feeders[w], limit);
    }
  }
}
