/** Every future submitted before `close` is resolved exactly once, or was cancelled in
    time, by the moment `close(wait=True)` returns. */
module JobQueueSafety {
  import opened JobQueue

  // ---------------------------------------------------------------- where a job is

  /** How many threads work on job id. */
  function Working(threads: seq<Thread>, id: nat): nat {
    multiset(threads)[Running(id)] + multiset(threads)[Retrying(id)]
  }

  /** How many times job id is queued or held. */
  function Places<T, R>(s: State<T, R>, id: nat): nat {
    multiset(s.queue)[Job(id)] + multiset(s.threads)[Holding(id)] + Working(s.threads, id)
  }

  predicate Unsettled<R>(status: Status<R>) {
    status.Pending? || status.Cancelled? || status.Claimed?
  }

  /** Job id is in exactly one place until its future is settled, and with a worker exactly
      while its future is claimed. */
  ghost predicate Owned<T, R>(s: State<T, R>, id: nat) {
    && Places(s, id) == (if id < |s.futures| && Unsettled(s.futures[id]) then 1 else 0)
    && (id < |s.futures| && s.futures[id].Claimed? <==> Working(s.threads, id) > 0)
  }

  // ---------------------------------------------------------------- sentinels

  function ToPut(client: Client): nat {
    if client.Putting? then client.left else 0
  }

  function Live(threads: seq<Thread>): int {
    |threads| - multiset(threads)[Dead]
  }

  /** No job sits behind a sentinel. */
  predicate JobsFirst(queue: seq<Entry>) {
    forall i, j :: 0 <= i < j < |queue| && queue[i].Sentinel? ==> queue[j].Sentinel?
  }

  predicate NoJobs(queue: seq<Entry>) {
    forall i :: 0 <= i < |queue| ==> queue[i].Sentinel?
  }

  /** After `close` starts the sentinels, queued or still to be put, are never fewer than
      the live threads; before, there are none and the host lives. */
  ghost predicate Sentinels<T, R>(s: State<T, R>) {
    && JobsFirst(s.queue)
    && (if s.closed then multiset(s.queue)[Sentinel] + ToPut(s.client) >= Live(s.threads) else Sentinel !in s.queue)
  }

  /** The host thread leaves only by a sentinel, so no job is queued any more. */
  ghost predicate HostLast<T, R>(s: State<T, R>) {
    && |s.threads| > 0 && !s.threads[0].Retrying?
    && (s.threads[0].Dead? ==> s.closed && NoJobs(s.queue))
  }

  predicate DeadUpTo(threads: seq<Thread>, n: nat) {
    n <= |threads| && forall w :: 0 <= w < n ==> threads[w].Dead?
  }

  ghost predicate Joins<T, R>(s: State<T, R>) {
    && (s.closed <==> !s.client.Open?)
    && (s.client.Joining? ==> DeadUpTo(s.threads, s.client.next))
    && (s.client == Returned(true) ==> DeadUpTo(s.threads, |s.threads|))
  }

  /** Every answer given so far is a legitimate one for its item. */
  ghost predicate Answers<T, R>(c: Config<T, R>, s: State<T, R>) {
    && |s.futures| == |s.items| && |s.threads| == c.feeders + 1
    && forall id :: 0 <= id < |s.futures| && s.futures[id].Resolved? ==>
         Legitimate(c, s.items[id], s.futures[id].outcome)
  }

  ghost predicate Inv<T, R>(c: Config<T, R>, s: State<T, R>) {
    && Answers(c, s) && Sentinels(s) && HostLast(s) && Joins(s)
    && forall id: nat :: Owned(s, id)
  }

  // ---------------------------------------------------------------- one step

  lemma InitInv<T, R>(c: Config<T, R>)
    ensures Inv<T, R>(c, Init(c))
  {
    var s := Init<T, R>(c);
    forall x: Thread | x != Getting ensures x !in multiset(s.threads) {
      assert x !in s.threads;
    }
    forall id: nat ensures Owned(s, id) {}
  }

  lemma PopHead(queue: seq<Entry>, e: Entry)
    requires queue != []
    ensures multiset(queue)[e] == multiset(queue[1..])[e] + if queue[0] == e then 1 else 0
  {
    assert queue == [queue[0]] + queue[1..];
  }

  lemma SwapAll(threads: seq<Thread>, w: nat, t: Thread, id: nat)
    requires w < |threads|
    ensures multiset(threads[w := t])[Holding(id)] + (if threads[w] == Holding(id) then 1 else 0)
            == multiset(threads)[Holding(id)] + if t == Holding(id) then 1 else 0
    ensures Working(threads[w := t], id) + (if threads[w] in {Running(id), Retrying(id)} then 1 else 0)
            == Working(threads, id) + if t in {Running(id), Retrying(id)} then 1 else 0
  {
  }

  lemma GetOwned<T, R>(c: Config<T, R>, s: State<T, R>, step: Step<T, R>, id: nat)
    requires Owned(s, id) && Enabled(c, s, step) && step.Get?
    ensures Owned(Apply(c, s, step), id)
  {
    PopHead(s.queue, Job(id));
    SwapAll(s.threads, step.w, Apply(c, s, step).threads[step.w], id);
  }

  lemma ClaimOwned<T, R>(c: Config<T, R>, s: State<T, R>, step: Step<T, R>, id: nat)
    requires Owned(s, id) && Enabled(c, s, step) && step.Claim?
    ensures Owned(Apply(c, s, step), id)
  {
    var future := s.futures[s.threads[step.w].id];
    if future.Pending? { ClaimPending(c, s, step, id); }
    else if future.Cancelled? { ClaimCancelled(c, s, step, id); }
    else { ClaimSettled(c, s, step, id); }
  }

  lemma ClaimPending<T, R>(c: Config<T, R>, s: State<T, R>, step: Step<T, R>, id: nat)
    requires Owned(s, id) && Enabled(c, s, step) && step.Claim? && s.futures[s.threads[step.w].id].Pending?
    ensures Owned(Apply(c, s, step), id)
  {
    SwapAll(s.threads, step.w, Running(s.threads[step.w].id), id);
    assert s.threads[step.w] in multiset(s.threads);
  }

  lemma ClaimCancelled<T, R>(c: Config<T, R>, s: State<T, R>, step: Step<T, R>, id: nat)
    requires Owned(s, id) && Enabled(c, s, step) && step.Claim? && s.futures[s.threads[step.w].id].Cancelled?
    ensures Owned(Apply(c, s, step), id)
  {
    SwapAll(s.threads, step.w, Getting, id);
    assert s.threads[step.w] in multiset(s.threads);
  }

  lemma ClaimSettled<T, R>(c: Config<T, R>, s: State<T, R>, step: Step<T, R>, id: nat)
    requires Owned(s, id) && Enabled(c, s, step) && step.Claim?
    requires !s.futures[s.threads[step.w].id].Pending? && !s.futures[s.threads[step.w].id].Cancelled?
    ensures Owned(Apply(c, s, step), id)
  {
    SwapAll(s.threads, step.w, Dead, id);
    assert s.threads[step.w] in multiset(s.threads);
  }

  lemma ResolveOwned<T, R>(c: Config<T, R>, s: State<T, R>, step: Step<T, R>, id: nat)
    requires Owned(s, id) && Enabled(c, s, step) && (step.Finish? || step.Retried? || step.RemoteFail?)
    ensures Owned(Apply(c, s, step), id)
  {
    SwapAll(s.threads, step.w, Apply(c, s, step).threads[step.w], id);
    assert s.threads[step.w] in multiset(s.threads);
  }

  lemma StepOwned<T, R>(c: Config<T, R>, s: State<T, R>, step: Step<T, R>, id: nat)
    requires Owned(s, id) && Enabled(c, s, step)
    ensures Owned(Apply(c, s, step), id)
  {
    match step
    case Get(w) => GetOwned(c, s, step, id);
    case Claim(w) => ClaimOwned(c, s, step, id);
    case Finish(w, outcome) => ResolveOwned(c, s, step, id);
    case RemoteFail(w) => ResolveOwned(c, s, step, id);
    case Retried(w, outcome) => ResolveOwned(c, s, step, id);
    case _ => ClientOwned(c, s, step, id);
  }

  lemma ClientOwned<T, R>(c: Config<T, R>, s: State<T, R>, step: Step<T, R>, id: nat)
    requires Owned(s, id) && Enabled(c, s, step)
    requires step.Submit? || step.Cancel? || step.Close? || step.PutSentinel? || step.Join?
    ensures Owned(Apply(c, s, step), id)
  {
  }

  /** A worker only ever claims a pending or cancelled future and only ever resolves a
      claimed one, so neither call can raise. */
  lemma NeverInvalidState<T, R>(c: Config<T, R>, s: State<T, R>, step: Step<T, R>)
    requires Inv(c, s) && Enabled(c, s, step)
    ensures step.Claim? ==> s.futures[s.threads[step.w].id].Pending? || s.futures[s.threads[step.w].id].Cancelled?
    ensures step.Finish? || step.Retried? ==> s.futures[s.threads[step.w].id].Claimed?
  {
    if step.Claim? || step.Finish? || step.Retried? {
      var id := s.threads[step.w].id;
      assert Owned(s, id);
      assert s.threads[step.w] in multiset(s.threads);
    }
  }

  lemma GetSentinels<T, R>(c: Config<T, R>, s: State<T, R>, step: Step<T, R>)
    requires Sentinels(s) && Enabled(c, s, step) && step.Get?
    ensures Sentinels(Apply(c, s, step))
  {
    PopHead(s.queue, Sentinel);
    assert s.queue == [s.queue[0]] + s.queue[1..];
  }

  lemma WorkerSentinels<T, R>(c: Config<T, R>, s: State<T, R>, step: Step<T, R>)
    requires Sentinels(s) && Enabled(c, s, step)
    requires step.Claim? || step.Finish? || step.RemoteFail? || step.Retried?
    ensures Sentinels(Apply(c, s, step))
  {
  }

  lemma StepSentinels<T, R>(c: Config<T, R>, s: State<T, R>, step: Step<T, R>)
    requires Sentinels(s) && Joins(s) && Enabled(c, s, step)
    ensures Sentinels(Apply(c, s, step))
  {
    if step.Get? { GetSentinels(c, s, step); }
    else if step.Claim? || step.Finish? || step.RemoteFail? || step.Retried? { WorkerSentinels(c, s, step); }
  }

  lemma StepHostLast<T, R>(c: Config<T, R>, s: State<T, R>, step: Step<T, R>)
    requires Inv(c, s) && Enabled(c, s, step)
    ensures HostLast(Apply(c, s, step))
  {
    NeverInvalidState(c, s, step);
    if step.Get? && s.queue[0].Sentinel? { assert Sentinel in s.queue; }
  }

  lemma StepJoins<T, R>(c: Config<T, R>, s: State<T, R>, step: Step<T, R>)
    requires Joins(s) && Enabled(c, s, step)
    ensures Joins(Apply(c, s, step))
  {
  }

  lemma StepInv<T, R>(c: Config<T, R>, s: State<T, R>, step: Step<T, R>)
    requires Inv(c, s) && Enabled(c, s, step)
    ensures Inv(c, Apply(c, s, step))
  {
    StepSentinels(c, s, step);
    StepHostLast(c, s, step);
    StepJoins(c, s, step);
    forall id: nat ensures Owned(Apply(c, s, step), id) { StepOwned(c, s, step, id); }
  }

  lemma {:induction false} RunInv<T, R>(c: Config<T, R>, s: State<T, R>, steps: seq<Step<T, R>>, t: State<T, R>)
    requires Inv(c, s) && Run(c, s, steps, t)
    ensures Inv(c, t)
    decreases |steps|
  {
    if steps != [] {
      StepInv(c, s, steps[0]);
      RunInv(c, Apply(c, s, steps[0]), steps[1..], t);
    }
  }

  lemma ReachableInv<T, R>(c: Config<T, R>, steps: seq<Step<T, R>>, t: State<T, R>)
    requires Reaches(c, steps, t)
    ensures Inv(c, t)
  {
    InitInv<T, R>(c);
    RunInv(c, Init(c), steps, t);
  }
}
