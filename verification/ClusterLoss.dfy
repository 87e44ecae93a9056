/** When `cluster_map` can lose work: exactly when some feeder may fail and there is
    something to lose. */
module ClusterLoss {
  import opened Basics
  import opened ClusterMap
  import opened ClusterSafety
  import opened ClusterResult

  /** No feeder but these fails in the run. */
  ghost predicate OnlyFails<R>(steps: seq<Step<R>>, fails: set<nat>) {
    forall k :: 0 <= k < |steps| && steps[k].FeederFail? ==> steps[k].w in fails
  }

  lemma {:induction false} RunAppend<T, R>(c: Config<T, R>, s: State<T, R>, a: seq<Step<R>>, m: State<T, R>,
        b: seq<Step<R>>, t: State<T, R>)
    requires Run(c, s, a, m) && Run(c, m, b, t)
    ensures Run(c, s, a + b, t)
    decreases |a|
  {
    if a == [] {
      assert a + b == b;
    } else {
      RunAppend(c, Apply(c, s, a[0]), a[1..], m, b, t);
      assert (a + b)[1..] == a[1..] + b;
    }
  }

  /** A run and one more step. */
  lemma Then<T, R>(c: Config<T, R>, s: State<T, R>, steps: seq<Step<R>>, m: State<T, R>, step: Step<R>)
    requires Run(c, s, steps, m) && Enabled(c, m, step)
    ensures Run(c, s, steps + [step], Apply(c, m, step))
  {
    assert [step][1..] == [];
    RunAppend(c, s, steps, m, [step], Apply(c, m, step));
  }

  // ---------------------------------------------------------------- the host takes the rest

  /** One round of the host: it takes one chunk and answers it in full. */
  lemma HostRound<T, R>(c: Config<T, R>, s: State<T, R>) returns (steps: seq<Step<R>>, t: State<T, R>)
    requires c.order.EmptyThenAlive? && s.host == HostGet(false) && s.hostHeld == [] && s.queue != []
    ensures Run(c, s, steps, t) && OnlyFails(steps, {})
    ensures t.queue == s.queue[1..] && t.host == HostGet(false) && t.hostHeld == []
    ensures t.feeders == s.feeders && t.missing == s.missing
  {
    var first: Step<R> := GetFirst(1);
    var a := Apply(c, s, first);
    var b := Apply(c, a, HostPull);
    var last := HostFinish(MapF(c.f, Batch(b.hostHeld)));
    t := Apply(c, b, last);
    steps := [] + [first];
    Then(c, s, [], s, first);
    Then(c, s, steps, a, HostPull);
    Then(c, s, steps + [HostPull], b, last);
    steps := steps + [HostPull] + [last];
  }

  lemma {:induction false} HostDrains<T, R>(c: Config<T, R>, s: State<T, R>)
    returns (steps: seq<Step<R>>, t: State<T, R>)
    requires c.order.EmptyThenAlive? && s.host == HostGet(false) && s.hostHeld == []
    ensures Run(c, s, steps, t) && OnlyFails(steps, {})
    ensures t.queue == [] && t.host == HostGet(false) && t.hostHeld == []
    ensures t.feeders == s.feeders && t.missing == s.missing
    decreases |s.queue|
  {
    steps, t := [], s;
    if s.queue != [] {
      var a, m := HostRound(c, s);
      var b, u := HostDrains(c, m);
      RunAppend(c, s, a, m, b, u);
      steps, t := a + b, u;
    }
  }

  // ---------------------------------------------------------------- the others die idle

  /** The feeders from k on, except w, find the queue empty and end. */
  lemma {:induction false} OthersDie<T, R>(c: Config<T, R>, s: State<T, R>, w: nat, k: nat)
    returns (steps: seq<Step<R>>, t: State<T, R>)
    requires s.queue == [] && k <= |s.feeders|
    requires forall v :: k <= v < |s.feeders| && v != w ==> s.feeders[v].pc.FeederPulling? && s.feeders[v].held == []
    ensures Run(c, s, steps, t) && OnlyFails(steps, {})
    ensures |t.feeders| == |s.feeders| && t == s.(feeders := t.feeders)
    ensures forall v :: 0 <= v < |s.feeders| && (v < k || v == w) ==> t.feeders[v] == s.feeders[v]
    ensures forall v :: k <= v < |s.feeders| && v != w ==> t.feeders[v].pc.FeederDead?
    decreases |s.feeders| - k
  {
    steps, t := [], s;
    if k < |s.feeders| {
      var a: seq<Step<R>>, m := [], s;
      if k != w {
        Then(c, s, [], s, FeederPull(k));
        a, m := [] + [FeederPull(k)], Apply(c, s, FeederPull(k));
      }
      var b, u := OthersDie(c, m, w, k + 1);
      RunAppend(c, s, a, m, b, u);
      steps, t := a + b, u;
    }
  }

  // ---------------------------------------------------------------- the race

  /** The feeder fails with one chunk in hand, puts it back and ends. */
  lemma FailsLate<T, R>(c: Config<T, R>, s: State<T, R>, w: nat) returns (steps: seq<Step<R>>, t: State<T, R>)
    requires w < |s.feeders| && s.feeders[w].pc.FeederRunning? && |s.feeders[w].held| == 1
    ensures Run(c, s, steps, t) && OnlyFails(steps, {w})
    ensures t == s.(queue := s.queue + s.feeders[w].held, feeders := s.feeders[w := Feeder(FeederDead, [])])
  {
    var fail: Step<R>, put: Step<R> := FeederFail(w), FeederPut(w);
    var a := Apply(c, s, fail);
    var b := Apply(c, a, put);
    Then(c, s, [], s, fail);
    Then(c, s, [] + [fail], a, put);
    Then(c, s, [] + [fail] + [put], b, put);
    steps, t := [] + [fail] + [put] + [put], Apply(c, b, put);
    assert t.feeders == s.feeders[w := Feeder(FeederDead, [])];
  }

  /** The host samples the threads, finds them dead and leaves. */
  lemma {:induction false} SamplesOut<T, R>(c: Config<T, R>, s: State<T, R>, j: nat)
    returns (steps: seq<Step<R>>, t: State<T, R>)
    requires c.order.EmptyThenAlive? && s.host == HostSample(j) && j <= |s.feeders|
    requires AllDead(s.feeders, |s.feeders|)
    ensures Run(c, s, steps, t) && OnlyFails(steps, {}) && t == s.(host := HostExited)
    decreases |s.feeders| - j
  {
    var m := Apply(c, s, SampleThread);
    Then(c, s, [], s, SampleThread);
    steps, t := [] + [SampleThread], m;
    if j < |s.feeders| {
      var b, u := SamplesOut(c, m, j + 1);
      RunAppend(c, s, steps, m, b, u);
      steps, t := steps + b, u;
    }
  }

  // ---------------------------------------------------------------- a losing run

  /** Feeder w takes the first chunk and the host answers the rest; w then has its batch. */
  lemma TakesFirst<T, R>(c: Config<T, R>, pulls: seq<nat>, w: nat) returns (steps: seq<Step<R>>, t: State<T, R>)
    requires ValidConfig(c, pulls) && c.order.EmptyThenAlive? && c.items != [] && w < c.feeders
    ensures Run(c, Init(c, pulls), steps, t) && OnlyFails(steps, {})
    ensures t.queue == [] && t.host == HostGet(false) && t.hostHeld == [] && t.missing == 0
    ensures |t.feeders| == c.feeders && t.feeders[w].pc.FeederRunning? && |t.feeders[w].held| == 1
    ensures forall v :: 0 <= v < c.feeders && v != w ==> t.feeders[v].pc.FeederPulling? && t.feeders[v].held == []
  {
    var s := Init(c, pulls);
    var pull: Step<R> := FeederPull(w);
    var a := Apply(c, s, pull);
    Then(c, s, [], s, pull);
    var drain, m := HostDrains(c, a);
    RunAppend(c, s, [] + [pull], a, drain, m);
    Then(c, s, [] + [pull] + drain, m, pull);
    steps, t := [] + [pull] + drain + [pull], Apply(c, m, pull);
  }

  /** The other feeders end, and the host's get times out. */
  lemma TimesOut<T, R>(c: Config<T, R>, s: State<T, R>, w: nat) returns (steps: seq<Step<R>>, t: State<T, R>)
    requires c.order.EmptyThenAlive? && s.queue == [] && s.host == HostGet(false)
    requires forall v :: 0 <= v < |s.feeders| && v != w ==> s.feeders[v].pc.FeederPulling? && s.feeders[v].held == []
    ensures Run(c, s, steps, t) && OnlyFails(steps, {})
    ensures |t.feeders| == |s.feeders| && t == s.(feeders := t.feeders, host := HostSample(0))
    ensures forall v :: 0 <= v < |s.feeders| ==>
              if v == w then t.feeders[v] == s.feeders[v] else t.feeders[v].pc.FeederDead?
  {
    var a, m := OthersDie(c, s, w, 0);
    Then(c, s, a, m, GetTimeout);
    steps, t := a + [GetTimeout], Apply(c, m, GetTimeout);
  }

  /** For any nonempty list, chunk size and pull counts, and any one feeder that may fail: a
      run of the coded order in which only that feeder fails and every answer is complete, and
      which leaves with the first chunk still queued. */
  lemma LosingRun<T, R>(c: Config<T, R>, pulls: seq<nat>, w: nat) returns (steps: seq<Step<R>>, t: State<T, R>)
    requires ValidConfig(c, pulls) && c.order.EmptyThenAlive? && c.items != [] && w < c.feeders
    ensures Reaches(c, pulls, steps, t) && OnlyFails(steps, {w})
    ensures t.host.HostExited? && t.missing == 0 && |t.queue| == 1 && Returned(c, t) == None
  {
    var s := Init(c, pulls);
    var a, s1 := TakesFirst(c, pulls, w);
    var b, s2 := TimesOut(c, s1, w);
    var d, s3 := FailsLate(c, s2, w);
    var e, s4 := SamplesOut(c, s3, 0);
    RunAppend(c, s, a, s1, b, s2);
    RunAppend(c, s, a + b, s2, d, s3);
    RunAppend(c, s, a + b + d, s3, e, s4);
    steps, t := a + b + d + e, s4;
    ExitCondition(c, pulls, steps, t);
  }

  /** The exact condition, known before the call: in the coded order, with some feeders allowed
      to fail and the rest not, every exit at which no list was short returns `map f items`, if
      and only if no feeder may fail or there is nothing to do. */
  lemma CompleteIffNoneFails<T(!new), R(!new)>(c: Config<T, R>, pulls: seq<nat>, fails: set<nat>)
    requires ValidConfig(c, pulls) && c.order.EmptyThenAlive? && forall w :: w in fails ==> w < c.feeders
    ensures (forall steps, t
               | Reaches(c, pulls, steps, t) && OnlyFails(steps, fails) && t.host.HostExited? && t.missing == 0 ::
               Returned(c, t) == Some(MapF(c.f, c.items)))
            <==> fails == {} || c.items == []
  {
    if fails == {} || c.items == [] {
      forall steps, t | Reaches(c, pulls, steps, t) && OnlyFails(steps, fails) && t.host.HostExited? && t.missing == 0
        ensures Returned(c, t) == Some(MapF(c.f, c.items))
      {
        if c.items == [] { assert Returned(c, t).value == MapF(c.f, c.items); }
        else { NoFailureIsComplete(c, pulls, steps, t); }
      }
    } else {
      var w :| w in fails;
      var steps, t := LosingRun(c, pulls, w);
    }
  }
}
