/** What the workers of `ClusterJobQueue` do and do not run: a job cancelled in time is never
    run, any other job is started once, jobs are taken in the order of submission, and a
    feeder whose call fails takes nothing more. */
module JobQueueWorkers {
  import opened JobQueue
  import opened JobQueueSafety
  import opened JobQueueResult

  // ---------------------------------------------------------------- who runs what

  /** Some thread is in run_local or run_remote for job id. */
  predicate Runs<T, R>(s: State<T, R>, id: nat) {
    exists w :: 0 <= w < |s.threads| && s.threads[w] in {Running(id), Retrying(id)}
  }

  /** At no point of the run is job id run. */
  ghost predicate NeverRuns<T, R>(c: Config<T, R>, s: State<T, R>, steps: seq<Step<T, R>>, t: State<T, R>,
        id: nat)
    requires Run(c, s, steps, t)
    decreases |steps|
  {
    !Runs(s, id) && (steps == [] || NeverRuns(c, Apply(c, s, steps[0]), steps[1..], t, id))
  }

  /** A job is run exactly while its future is claimed. */
  lemma RunsWhileClaimed<T, R>(c: Config<T, R>, s: State<T, R>, id: nat)
    requires Inv(c, s)
    ensures Runs(s, id) <==> id < |s.futures| && s.futures[id].Claimed?
  {
    assert Owned(s, id);
    if Runs(s, id) {
      var w :| 0 <= w < |s.threads| && s.threads[w] in {Running(id), Retrying(id)};
      assert s.threads[w] in multiset(s.threads);
    } else {
      assert Running(id) !in s.threads && Retrying(id) !in s.threads;
    }
  }

  // ---------------------------------------------------------------- cancelled jobs

  lemma CancelledStays<T, R>(c: Config<T, R>, s: State<T, R>, step: Step<T, R>, id: nat)
    requires Inv(c, s) && Enabled(c, s, step) && WasCancelled(s, id)
    ensures WasCancelled(Apply(c, s, step), id) && !Resolves(s, step, id)
  {
    NeverInvalidState(c, s, step);
  }

  lemma {:induction false} CancelledRun<T, R>(c: Config<T, R>, s: State<T, R>, steps: seq<Step<T, R>>, t: State<T, R>,
        id: nat)
    requires Inv(c, s) && Run(c, s, steps, t) && WasCancelled(s, id)
    ensures WasCancelled(t, id) && NeverRuns(c, s, steps, t, id) && Resolutions(c, s, steps, t, id) == 0
    decreases |steps|
  {
    RunsWhileClaimed(c, s, id);
    if steps != [] {
      CancelledStays(c, s, steps[0], id);
      StepInv(c, s, steps[0]);
      CancelledRun(c, Apply(c, s, steps[0]), steps[1..], t, id);
    }
  }

  /** A job whose future has been cancelled is never run again by any worker, and its future is
      never resolved; once `close(wait=True)` has returned, a worker has seen the cancellation. */
  lemma CancelledNeverRuns<T, R>(c: Config<T, R>, past: seq<Step<T, R>>, s: State<T, R>, steps: seq<Step<T, R>>,
        t: State<T, R>, id: nat)
    requires Reaches(c, past, s) && Run(c, s, steps, t) && id < |s.futures| && s.futures[id].Cancelled?
    ensures NeverRuns(c, s, steps, t, id) && Resolutions(c, s, steps, t, id) == 0
    ensures id < |t.futures| && (t.futures[id].Cancelled? || t.futures[id].Notified?)
    ensures t.client == Returned(true) ==> t.futures[id] == Notified
  {
    ReachableInv(c, past, s);
    CancelledRun(c, s, steps, t, id);
    RunInv(c, s, steps, t);
    if t.client == Returned(true) { DeadThreadsSettle(c, t, id); }
  }

  /** A cancellation works exactly while no worker has claimed the job; otherwise it changes
      nothing. */
  lemma CancelWorksIff<T, R>(c: Config<T, R>, past: seq<Step<T, R>>, s: State<T, R>, id: nat)
    requires Reaches(c, past, s) && Enabled(c, s, Cancel(id))
    ensures var t := Apply(c, s, Cancel(id));
            && (WasCancelled(t, id) <==> !Runs(s, id) && !IsResolved(s, id))
            && (Runs(s, id) || IsResolved(s, id) ==> t == s)
  {
    ReachableInv(c, past, s);
    RunsWhileClaimed(c, s, id);
  }

  // ---------------------------------------------------------------- every other job runs once

  /** Does this step make a thread start on job id? */
  predicate Starts<T, R>(c: Config<T, R>, s: State<T, R>, step: Step<T, R>, id: nat)
    requires Enabled(c, s, step)
  {
    exists w :: 0 <= w < |s.threads| && s.threads[w] !in {Running(id), Retrying(id)}
                && w < |Apply(c, s, step).threads| && Apply(c, s, step).threads[w] in {Running(id), Retrying(id)}
  }

  function StartCount<T(==), R(==)>(c: Config<T, R>, s: State<T, R>, steps: seq<Step<T, R>>, t: State<T, R>,
        id: nat): nat
    requires Run(c, s, steps, t)
    decreases |steps|
  {
    if steps == [] then 0
    else (if Starts(c, s, steps[0], id) then 1 else 0) + StartCount(c, Apply(c, s, steps[0]), steps[1..], t, id)
  }

  predicate Started<T, R>(s: State<T, R>, id: nat) {
    id < |s.futures| && (s.futures[id].Claimed? || s.futures[id].Resolved?)
  }

  lemma StartsClaim<T, R>(c: Config<T, R>, s: State<T, R>, step: Step<T, R>, id: nat)
    requires Inv(c, s) && Enabled(c, s, step) && Starts(c, s, step, id)
    ensures !Started(s, id) && Started(Apply(c, s, step), id)
  {
    NeverInvalidState(c, s, step);
  }

  lemma StartsOnly<T, R>(c: Config<T, R>, s: State<T, R>, step: Step<T, R>, id: nat)
    requires Inv(c, s) && Enabled(c, s, step) && !Starts(c, s, step, id)
    ensures Started(Apply(c, s, step), id) <==> Started(s, id)
  {
    NeverInvalidState(c, s, step);
    if step.Claim? && s.threads[step.w].id == id { assert 0 <= step.w < |s.threads|; }
  }

  lemma {:induction false} StartedCount<T, R>(c: Config<T, R>, s: State<T, R>, steps: seq<Step<T, R>>, t: State<T, R>,
        id: nat)
    requires Inv(c, s) && Run(c, s, steps, t)
    ensures (if Started(s, id) then 1 else 0) + StartCount(c, s, steps, t, id) == if Started(t, id) then 1 else 0
    decreases |steps|
  {
    if steps != [] {
      if Starts(c, s, steps[0], id) { StartsClaim(c, s, steps[0], id); } else { StartsOnly(c, s, steps[0], id); }
      StepInv(c, s, steps[0]);
      StartedCount(c, Apply(c, s, steps[0]), steps[1..], t, id);
    }
  }

  /** Once `close(wait=True)` has returned, each job has been started exactly once if its future
      holds an answer, and never if its cancellation came in time. */
  lemma StartedOnceUnlessCancelled<T, R>(c: Config<T, R>, steps: seq<Step<T, R>>, t: State<T, R>, id: nat)
    requires Reaches(c, steps, t) && t.client == Returned(true) && id < |t.futures|
    ensures StartCount(c, Init(c), steps, t, id) == if t.futures[id] == Notified then 0 else 1
  {
    InitInv<T, R>(c);
    StartedCount(c, Init(c), steps, t, id);
    ReachableInv(c, steps, t);
    DeadThreadsSettle(c, t, id);
  }

  // ---------------------------------------------------------------- a failing feeder

  /** Thread w takes, starts or finishes a job, or fails. */
  predicate TakesPart<T, R>(step: Step<T, R>, w: nat) {
    step == Get(w) || step == Claim(w) || step == RemoteFail(w) || (step.Finish? && step.w == w)
  }

  predicate Failing(th: Thread) {
    th.Retrying? || th.Dead?
  }

  lemma {:induction false} FailingRun<T, R>(c: Config<T, R>, s: State<T, R>, steps: seq<Step<T, R>>, t: State<T, R>,
        w: nat)
    requires Run(c, s, steps, t) && w < |s.threads| && Failing(s.threads[w])
    ensures w < |t.threads| && Failing(t.threads[w]) && (s.threads[w].Dead? ==> t.threads[w].Dead?)
    ensures forall k :: 0 <= k < |steps| ==> !TakesPart(steps[k], w)
    ensures forall k :: 0 <= k < |steps| && steps[k].Retried? && steps[k].w == w ==> !s.threads[w].Dead?
    ensures forall j, k :: 0 <= j < k < |steps| && steps[j].Retried? && steps[j].w == w ==>
              !(steps[k].Retried? && steps[k].w == w)
    decreases |steps|
  {
    if steps != [] {
      FailingRun(c, Apply(c, s, steps[0]), steps[1..], t, w);
      assert forall k :: 1 <= k < |steps| ==> steps[k] == steps[1..][k - 1];
    }
  }

  /** After a feeder's call has failed its thread takes, starts and finishes no job any more; it
      only ends its one local retry, and is dead once that is over. */
  lemma FailingFeederStops<T, R>(c: Config<T, R>, s: State<T, R>, w: nat, steps: seq<Step<T, R>>, t: State<T, R>)
    requires Enabled(c, s, RemoteFail(w)) && Run(c, Apply(c, s, RemoteFail(w)), steps, t)
    ensures forall k :: 0 <= k < |steps| ==> !TakesPart(steps[k], w)
    ensures forall j, k :: 0 <= j < k < |steps| && steps[j].Retried? && steps[j].w == w ==>
              !(steps[k].Retried? && steps[k].w == w)
    ensures w < |t.threads|
    ensures if exists k :: 0 <= k < |steps| && steps[k].Retried? && steps[k].w == w then t.threads[w].Dead?
            else t.threads[w] == Retrying(s.threads[w].id)
  {
    FailingRun(c, Apply(c, s, RemoteFail(w)), steps, t, w);
    RetryEnds(c, Apply(c, s, RemoteFail(w)), steps, t, w);
  }

  lemma {:induction false} RetryEnds<T, R>(c: Config<T, R>, s: State<T, R>, steps: seq<Step<T, R>>, t: State<T, R>,
        w: nat)
    requires Run(c, s, steps, t) && w < |s.threads| && s.threads[w].Retrying?
    ensures w < |t.threads|
    ensures if exists k :: 0 <= k < |steps| && steps[k].Retried? && steps[k].w == w then t.threads[w].Dead?
            else t.threads[w] == s.threads[w]
    decreases |steps|
  {
    if steps != [] {
      var next := Apply(c, s, steps[0]);
      assert forall k :: 1 <= k < |steps| ==> steps[k] == steps[1..][k - 1];
      assert forall k :: 0 <= k < |steps[1..]| ==> steps[1..][k] == steps[k + 1];
      if steps[0].Retried? && steps[0].w == w {
        FailingRun(c, next, steps[1..], t, w);
        assert 0 <= 0 < |steps| && steps[0].Retried?;
      } else {
        RetryEnds(c, next, steps[1..], t, w);
      }
    }
  }

  /** So in any run each feeder fails at most once. */
  lemma {:induction false} FailsAtMostOnce<T, R>(c: Config<T, R>, s: State<T, R>, steps: seq<Step<T, R>>,
        t: State<T, R>, w: nat, j: nat, k: nat)
    requires Run(c, s, steps, t) && j < k < |steps|
    ensures !(steps[j] == RemoteFail(w) && steps[k] == RemoteFail(w))
    decreases |steps|
  {
    if j > 0 {
      FailsAtMostOnce(c, Apply(c, s, steps[0]), steps[1..], t, w, j - 1, k - 1);
    } else if steps[0] == RemoteFail(w) {
      FailingFeederStops(c, s, w, steps[1..], t);
      assert steps[1..][k - 1] == steps[k] && !TakesPart(steps[1..][k - 1], w);
    }
  }

  lemma {:induction false} AliveRun<T, R>(c: Config<T, R>, s: State<T, R>, steps: seq<Step<T, R>>, t: State<T, R>,
        w: nat)
    requires Inv(c, s) && Run(c, s, steps, t) && !t.closed && w < |s.threads| && RemoteFail(w) !in steps
    requires !Failing(s.threads[w])
    ensures w < |t.threads| && !Failing(t.threads[w])
    decreases |steps|
  {
    if steps != [] {
      NeverInvalidState(c, s, steps[0]);
      StepInv(c, s, steps[0]);
      OpenBefore(c, s, steps, t);
      if steps[0] == Get(w) { assert s.queue[0] in s.queue; }
      assert steps[0] in steps && forall x :: x in steps[1..] ==> x in steps;
      AliveRun(c, Apply(c, s, steps[0]), steps[1..], t, w);
    }
  }

  lemma {:induction false} OpenBefore<T, R>(c: Config<T, R>, s: State<T, R>, steps: seq<Step<T, R>>, t: State<T, R>)
    requires Run(c, s, steps, t) && !t.closed
    ensures !s.closed
    decreases |steps|
  {
    if steps != [] { OpenBefore(c, Apply(c, s, steps[0]), steps[1..], t); }
  }

  /** Nothing else stops a worker: before `close` a thread that has not failed is alive. */
  lemma AliveUnlessFailed<T, R>(c: Config<T, R>, steps: seq<Step<T, R>>, t: State<T, R>, w: nat)
    requires Reaches(c, steps, t) && !t.closed && w <= c.feeders && RemoteFail(w) !in steps
    ensures w < |t.threads| && !t.threads[w].Dead? && !t.threads[w].Retrying?
  {
    InitInv<T, R>(c);
    AliveRun(c, Init(c), steps, t, w);
  }

  // ---------------------------------------------------------------- order of submission

  /** The queued jobs are in the order of their submission, and none is still to be submitted. */
  predicate InOrder<T, R>(s: State<T, R>) {
    && (forall i :: 0 <= i < |s.queue| && s.queue[i].Job? ==> s.queue[i].id < |s.futures|)
    && forall i, j :: 0 <= i < j < |s.queue| && s.queue[i].Job? && s.queue[j].Job? ==> s.queue[i].id < s.queue[j].id
  }

  lemma StepInOrder<T, R>(c: Config<T, R>, s: State<T, R>, step: Step<T, R>)
    requires InOrder(s) && Enabled(c, s, step)
    ensures InOrder(Apply(c, s, step))
  {
    var t := Apply(c, s, step);
    if step.Get? {
      assert forall i :: 0 <= i < |t.queue| ==> t.queue[i] == s.queue[i + 1];
    }
  }

  lemma {:induction false} RunInOrder<T, R>(c: Config<T, R>, s: State<T, R>, steps: seq<Step<T, R>>, t: State<T, R>)
    requires InOrder(s) && Run(c, s, steps, t)
    ensures InOrder(t)
    decreases |steps|
  {
    if steps != [] {
      StepInOrder(c, s, steps[0]);
      RunInOrder(c, Apply(c, s, steps[0]), steps[1..], t);
    }
  }

  lemma {:induction false} TakenLater<T, R>(c: Config<T, R>, s: State<T, R>, steps: seq<Step<T, R>>, t: State<T, R>,
        id: nat)
    requires InOrder(s) && Run(c, s, steps, t) && id < |s.futures|
    requires forall i :: 0 <= i < |s.queue| && s.queue[i].Job? ==> s.queue[i].id > id
    ensures forall i :: 0 <= i < |t.queue| && t.queue[i].Job? ==> t.queue[i].id > id
    decreases |steps|
  {
    if steps != [] {
      var next := Apply(c, s, steps[0]);
      StepInOrder(c, s, steps[0]);
      TakenLater(c, next, steps[1..], t, id);
    }
  }

  /** Whatever the workers do, jobs are taken in the order of submission: after one has been
      taken, every job that is still queued, then or later, was submitted after it. */
  lemma TakenInOrder<T, R>(c: Config<T, R>, past: seq<Step<T, R>>, s: State<T, R>, w: nat, steps: seq<Step<T, R>>,
        t: State<T, R>)
    requires Reaches(c, past, s) && Enabled(c, s, Get(w)) && s.queue[0].Job?
    requires Run(c, Apply(c, s, Get(w)), steps, t)
    ensures Apply(c, s, Get(w)).threads[w] == Holding(s.queue[0].id)
    ensures forall i :: 0 <= i < |t.queue| && t.queue[i].Job? ==> t.queue[i].id > s.queue[0].id
  {
    RunInOrder(c, Init(c), past, s);
    var next := Apply(c, s, Get(w));
    StepInOrder(c, s, Get(w));
    TakenLater(c, next, steps, t, s.queue[0].id);
  }
}
