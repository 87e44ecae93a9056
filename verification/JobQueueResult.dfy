/** What the owner of a future sees, and that `close` cannot hang. */
module JobQueueResult {
  import opened JobQueue
  import opened JobQueueSafety

  // ---------------------------------------------------------------- exactly once

  /** Does this step call set_result or set_exception on future id? */
  predicate Resolves<T, R>(s: State<T, R>, step: Step<T, R>, id: nat) {
    match step
    case Finish(w, outcome) => w < |s.threads| && s.threads[w] == Running(id)
    case Retried(w, outcome) => w < |s.threads| && s.threads[w] == Retrying(id)
    case _ => false
  }

  function Resolutions<T, R>(c: Config<T, R>, s: State<T, R>, steps: seq<Step<T, R>>, t: State<T, R>, id: nat): nat
    requires Run(c, s, steps, t)
    decreases |steps|
  {
    if steps == [] then 0
    else (if Resolves(s, steps[0], id) then 1 else 0) + Resolutions(c, Apply(c, s, steps[0]), steps[1..], t, id)
  }

  predicate IsResolved<T, R>(s: State<T, R>, id: nat) {
    id < |s.futures| && s.futures[id].Resolved?
  }

  lemma ResolvesOnce<T, R>(c: Config<T, R>, s: State<T, R>, step: Step<T, R>, id: nat)
    requires Inv(c, s) && Enabled(c, s, step)
    ensures Resolves(s, step, id) ==> !IsResolved(s, id) && IsResolved(Apply(c, s, step), id)
    ensures !Resolves(s, step, id) ==> (IsResolved(Apply(c, s, step), id) <==> IsResolved(s, id))
  {
    NeverInvalidState(c, s, step);
  }

  lemma {:induction false} ResolutionCount<T, R>(c: Config<T, R>, s: State<T, R>, steps: seq<Step<T, R>>,
        t: State<T, R>, id: nat)
    requires Inv(c, s) && Run(c, s, steps, t)
    ensures (if IsResolved(s, id) then 1 else 0) + Resolutions(c, s, steps, t, id) == if IsResolved(t, id) then 1 else 0
    decreases |steps|
  {
    if steps != [] {
      ResolvesOnce(c, s, steps[0], id);
      StepInv(c, s, steps[0]);
      ResolutionCount(c, Apply(c, s, steps[0]), steps[1..], t, id);
    }
  }

  /** In every run a future is resolved at most once, and exactly once if it is resolved. */
  lemma ResolvedExactlyOnce<T, R>(c: Config<T, R>, steps: seq<Step<T, R>>, t: State<T, R>, id: nat)
    requires Reaches(c, steps, t)
    ensures Resolutions(c, Init(c), steps, t, id) == if IsResolved(t, id) then 1 else 0
  {
    InitInv<T, R>(c);
    ResolutionCount(c, Init(c), steps, t, id);
  }

  // ---------------------------------------------------------------- after close

  predicate WasCancelled<T, R>(s: State<T, R>, id: nat) {
    id < |s.futures| && (s.futures[id].Cancelled? || s.futures[id].Notified?)
  }

  lemma {:induction false} OnlyOwnersCancel<T, R>(c: Config<T, R>, s: State<T, R>, steps: seq<Step<T, R>>,
        t: State<T, R>, id: nat)
    requires Run(c, s, steps, t) && !WasCancelled(s, id) && WasCancelled(t, id)
    ensures Cancel(id) in steps
    decreases |steps|
  {
    if steps != [] && steps[0] != Cancel(id) {
      OnlyOwnersCancel(c, Apply(c, s, steps[0]), steps[1..], t, id);
      assert steps == [steps[0]] + steps[1..];
    }
  }

  lemma DeadThreadsSettle<T, R>(c: Config<T, R>, s: State<T, R>, id: nat)
    requires Inv(c, s) && id < |s.futures| && DeadUpTo(s.threads, |s.threads|)
    ensures s.futures[id].Resolved? || s.futures[id].Notified?
  {
    assert Owned(s, id);
    assert s.threads[0].Dead?;
  }

  /** Once `close(wait=True)` has returned, every future is settled, whichever feeders
      failed: it holds a legitimate answer for its own item, given by exactly one call, or
      its owner cancelled it.  In particular a future that nobody cancelled is resolved. */
  lemma AllSettledAfterClose<T, R>(c: Config<T, R>, steps: seq<Step<T, R>>, t: State<T, R>, id: nat)
    requires Reaches(c, steps, t) && t.client == Returned(true) && id < |t.futures|
    ensures |t.items| == |t.futures|
    ensures if t.futures[id].Resolved?
            then Legitimate(c, t.items[id], t.futures[id].outcome) && Resolutions(c, Init(c), steps, t, id) == 1
            else t.futures[id].Notified? && Cancel(id) in steps && Resolutions(c, Init(c), steps, t, id) == 0
  {
    ReachableInv(c, steps, t);
    DeadThreadsSettle(c, t, id);
    ResolvedExactlyOnce(c, steps, t, id);
    if t.futures[id].Notified? { OnlyOwnersCancel(c, Init(c), steps, t, id); }
  }

  /** A feeder's exception never reaches the owner of a future: what a future raises, a
      run_local call raised for that item. */
  lemma ExceptionsAreLocal<T, R>(c: Config<T, R>, steps: seq<Step<T, R>>, t: State<T, R>, id: nat)
    requires Reaches(c, steps, t) && IsResolved(t, id) && t.futures[id].outcome.Raised?
    ensures id < |t.items| && c.local(t.items[id], t.futures[id].outcome)
  {
    ReachableInv(c, steps, t);
  }

  /** If host and feeders all compute f, every uncancelled future gets f of its item. */
  lemma QueueComputesF<T(!new), R(!new)>(c: Config<T, R>, f: T -> R, steps: seq<Step<T, R>>, t: State<T, R>, id: nat)
    requires forall x, o :: c.local(x, o) ==> o == Value(f(x))
    requires forall x, r :: c.remote(x, r) ==> r == f(x)
    requires Reaches(c, steps, t) && t.client == Returned(true) && id < |t.futures| && Cancel(id) !in steps
    ensures id < |t.items| && t.futures[id] == Resolved(Value(f(t.items[id])))
  {
    AllSettledAfterClose(c, steps, t, id);
  }

  // ---------------------------------------------------------------- what a submit gives

  lemma {:induction false} ItemsOnlyGrow<T, R>(c: Config<T, R>, s: State<T, R>, steps: seq<Step<T, R>>, t: State<T, R>)
    requires Run(c, s, steps, t)
    ensures s.items <= t.items
    decreases |steps|
  {
    if steps != [] { ItemsOnlyGrow(c, Apply(c, s, steps[0]), steps[1..], t); }
  }

  /** A future belongs to the item of its own submit for good; after `close` a submit
      creates nothing. */
  lemma SubmitSpec<T, R>(c: Config<T, R>, before: seq<Step<T, R>>, s: State<T, R>, item: T, after: seq<Step<T, R>>,
        t: State<T, R>)
    requires Reaches(c, before, s) && Enabled(c, s, Submit(item)) && Run(c, Apply(c, s, Submit(item)), after, t)
    ensures s.client.Open? ==> |s.items| < |t.items| && t.items[|s.items|] == item
    ensures !s.client.Open? ==> Apply(c, s, Submit(item)) == s
  {
    ReachableInv(c, before, s);
    ItemsOnlyGrow(c, Apply(c, s, Submit(item)), after, t);
  }

  // ---------------------------------------------------------------- no deadlock

  /** Steps that a worker, or a client inside `close`, takes. */
  predicate IsWork<T, R>(s: State<T, R>, step: Step<T, R>) {
    !step.Submit? && !step.Cancel? && (step.Close? ==> !s.closed)
  }

  ghost predicate Stuck<T(!new), R(!new)>(c: Config<T, R>, s: State<T, R>) {
    forall step: Step<T, R> :: IsWork(s, step) ==> !Enabled(c, s, step)
  }

  ghost predicate Ends<T, R(!new)>(c: Config<T, R>, item: T) {
    exists outcome :: c.local(item, outcome)
  }

  /** run_local always ends somehow. */
  ghost predicate LocalEnds<T(!new), R(!new)>(c: Config<T, R>) {
    forall item :: Ends(c, item)
  }

  lemma BusyThreadMoves<T(!new), R(!new)>(c: Config<T, R>, s: State<T, R>, w: nat) returns (step: Step<T, R>)
    requires Inv(c, s) && LocalEnds(c) && w < |s.threads| && !s.threads[w].Getting? && !s.threads[w].Dead?
    ensures IsWork(s, step) && Enabled(c, s, step)
  {
    var th := s.threads[w];
    assert th in multiset(s.threads);
    assert Owned(s, th.id);
    if th.Holding? {
      step := Claim(w);
    } else {
      var item := s.items[th.id];
      assert Ends(c, item);
      var outcome :| c.local(item, outcome);
      step := if th.Retrying? then Retried(w, outcome) else if w == 0 then Finish(w, outcome) else RemoteFail(w);
    }
  }

  lemma LiveThreadMoves<T(!new), R(!new)>(c: Config<T, R>, s: State<T, R>, w: nat) returns (step: Step<T, R>)
    requires Inv(c, s) && LocalEnds(c) && s.closed && !s.client.Putting? && w < |s.threads| && !s.threads[w].Dead?
    ensures IsWork(s, step) && Enabled(c, s, step)
  {
    if s.threads[w].Getting? {
      SomeoneLives(s.threads, w);
      assert multiset(s.queue)[Sentinel] > 0;
      step := Get(w);
    } else {
      step := BusyThreadMoves(c, s, w);
    }
  }

  lemma SomeoneLives(threads: seq<Thread>, w: nat)
    requires w < |threads| && !threads[w].Dead?
    ensures Live(threads) > 0
  {
    var rest := multiset(threads) - multiset{threads[w]};
    assert threads[w] in multiset(threads);
    assert |multiset(threads)| == |threads|;
    assert rest[Dead] == multiset(threads)[Dead];
    CountAtMost(rest, Dead);
  }

  lemma CountAtMost(m: multiset<Thread>, x: Thread)
    ensures m[x] <= |m|
  {
    var others := m[x := 0];
    assert m == others + multiset{}[x := m[x]];
  }

  /** `close` cannot hang: as long as the client has not returned from it, or a thread has
      not ended, some thread can move. */
  lemma NoDeadlock<T(!new), R(!new)>(c: Config<T, R>, steps: seq<Step<T, R>>, s: State<T, R>)
    requires LocalEnds(c) && Reaches(c, steps, s) && s.closed && Stuck(c, s)
    ensures s.client.Returned? && DeadUpTo(s.threads, |s.threads|)
  {
    ReachableInv(c, steps, s);
    assert !Enabled(c, s, PutSentinel);
    forall w | 0 <= w < |s.threads| ensures s.threads[w].Dead? {
      if !s.threads[w].Dead? { var step := LiveThreadMoves(c, s, w); }
    }
    assert !Enabled(c, s, Join);
  }

  // ---------------------------------------------------------------- bounded work

  function ThreadWork(th: Thread): nat {
    match th
    case Holding(_) => 4
    case Running(_) => 3
    case Retrying(_) => 2
    case _ => 0
  }

  function ThreadsWork(threads: seq<Thread>): nat {
    if threads == [] then 0 else ThreadWork(threads[0]) + ThreadsWork(threads[1..])
  }

  /** What the client still has to do, were it to call `close` now. */
  function ClientWork(client: Client, threads: nat): nat {
    match client
    case Open => 7 * threads + 3
    case Putting(left, wait) => 6 * left + threads + 2
    case Joining(next) => if next <= threads then threads + 1 - next else 0
    case Returned(_) => 0
  }

  function Potential<T, R>(s: State<T, R>): nat {
    5 * |s.queue| + ThreadsWork(s.threads) + ClientWork(s.client, |s.threads|)
  }

  lemma {:induction false} WorkUpdate(threads: seq<Thread>, w: nat, th: Thread)
    requires w < |threads|
    ensures ThreadsWork(threads[w := th]) + ThreadWork(threads[w]) == ThreadsWork(threads) + ThreadWork(th)
  {
    if w > 0 {
      assert threads[w := th][1..] == threads[1..][w - 1 := th];
      WorkUpdate(threads[1..], w - 1, th);
    } else {
      assert threads[w := th][1..] == threads[1..];
    }
  }

  function Cost<T, R>(s: State<T, R>, step: Step<T, R>): int {
    if IsWork(s, step) then -1 else if step.Submit? && !s.closed then 5 else 0
  }

  lemma StepLowers<T, R>(c: Config<T, R>, s: State<T, R>, step: Step<T, R>)
    requires Joins(s) && Enabled(c, s, step)
    ensures Potential(Apply(c, s, step)) <= Potential(s) + Cost(s, step)
  {
    var t := Apply(c, s, step);
    if step.Get? || step.Claim? || step.Finish? || step.RemoteFail? || step.Retried? {
      WorkUpdate(s.threads, step.w, t.threads[step.w]);
    }
  }

  function Submits<T, R>(steps: seq<Step<T, R>>): nat {
    if steps == [] then 0 else (if steps[0].Submit? then 1 else 0) + Submits(steps[1..])
  }

  function WorkCount<T, R>(c: Config<T, R>, s: State<T, R>, steps: seq<Step<T, R>>, t: State<T, R>): nat
    requires Run(c, s, steps, t)
    decreases |steps|
  {
    if steps == [] then 0
    else (if IsWork(s, steps[0]) then 1 else 0) + WorkCount(c, Apply(c, s, steps[0]), steps[1..], t)
  }

  lemma {:induction false} RunLowers<T, R>(c: Config<T, R>, s: State<T, R>, steps: seq<Step<T, R>>, t: State<T, R>)
    requires Joins(s) && Run(c, s, steps, t)
    ensures WorkCount(c, s, steps, t) + Potential(t) <= Potential(s) + 5 * Submits(steps)
    decreases |steps|
  {
    if steps != [] {
      StepLowers(c, s, steps[0]);
      StepJoins(c, s, steps[0]);
      RunLowers(c, Apply(c, s, steps[0]), steps[1..], t);
    }
  }

  lemma {:induction false} IdleThreads(threads: seq<Thread>)
    requires forall w :: 0 <= w < |threads| ==> threads[w].Getting?
    ensures ThreadsWork(threads) == 0
  {
    if threads != [] { IdleThreads(threads[1..]); }
  }

  /** In any run each submitted job costs at most five steps and closing at most seven for
      each thread, however the feeders fail; with `NoDeadlock`, `close` returns. */
  lemma WorkIsBounded<T, R>(c: Config<T, R>, steps: seq<Step<T, R>>, t: State<T, R>)
    requires Reaches(c, steps, t)
    ensures WorkCount(c, Init(c), steps, t) <= 5 * Submits(steps) + 7 * (c.feeders + 1) + 3
  {
    var s: State<T, R> := Init(c);
    InitInv<T, R>(c);
    IdleThreads(s.threads);
    RunLowers(c, s, steps, t);
  }
}
