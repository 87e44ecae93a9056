/** The bounded levers of gb_control.py: `GbControl._lever` and the setters that use it. */
module ControlLever {
  import opened Basics

  /** What a setter passes to `_lever`: booleans are the numbers 0 and 1; a text lever has
      no bounds and no step. */
  datatype Setting = Num(n: int) | Text(s: string)
  datatype Lever = Lever(name: string, bounds: Option<(int, int)>, step: Option<nat>)

  type Seconds = real
  datatype Record = Record(value: Setting, at: Seconds)

  datatype Verdict = Unchanged | RateLimited | DryRun | Applied | ApplyFailed
  datatype Result = Result(name: string, before: Option<Setting>, wanted: Setting, verdict: Verdict)

  /** `calls` are the backend actions run so far. */
  datatype Panel = Panel(last: map<string, Record>, calls: seq<(string, Setting)>)
  datatype Mode = Mode(minInterval: Seconds, dry: bool)

  /** One call of a setter; `ok` is what the backend action would answer. */
  datatype Pull = Pull(lever: Lever, target: Setting, now: Seconds, ok: bool)

  // ---------------------------------------------------------------- the aim

  /** `max(lo, min(hi, wanted))`; the TypeError of a text value leaves it alone. */
  function Clamp(l: Lever, v: Setting): Setting {
    if l.bounds.Some? && v.Num? then Num(Max(l.bounds.value.0, Min(l.bounds.value.1, v.n))) else v
  }

  function Toward(start: int, goal: int, step: nat): int {
    start + Max(0 - step, Min(step, goal - start))
  }

  /** The value a call is after: clamped, at most one step from the old one, clamped again. */
  function Aim(l: Lever, before: Option<Setting>, target: Setting): Setting {
    var wanted := Clamp(l, target);
    if l.step.Some? && before.Some? && before.value.Num? && wanted.Num?
    then Clamp(l, Num(Toward(before.value.n, wanted.n, l.step.value)))
    else wanted
  }

  function OldValue(p: Panel, name: string): Option<Setting> {
    if name in p.last then Some(p.last[name].value) else None
  }

  /** A lever never moved counts as moved at time 0.0. */
  function OldTime(p: Panel, name: string): Seconds {
    if name in p.last then p.last[name].at else 0.0
  }

  function Judge(m: Mode, p: Panel, c: Pull): Verdict {
    var before, wanted := OldValue(p, c.lever.name), Aim(c.lever, OldValue(p, c.lever.name), c.target);
    if before == Some(wanted) then Unchanged
    else if c.now - OldTime(p, c.lever.name) < m.minInterval then RateLimited
    else if m.dry then DryRun
    else if c.ok then Applied
    else ApplyFailed
  }

  function After(m: Mode, p: Panel, c: Pull): Panel {
    var wanted, verdict := Aim(c.lever, OldValue(p, c.lever.name), c.target), Judge(m, p, c);
    Panel(if verdict.DryRun? || verdict.Applied? then p.last[c.lever.name := Record(wanted, c.now)] else p.last,
          if verdict.Applied? || verdict.ApplyFailed? then p.calls + [(c.lever.name, wanted)] else p.calls)
  }

  class Control {
    const mode: Mode
    var last: map<string, Record>
    ghost var calls: seq<(string, Setting)>

    constructor (mode: Mode)
      ensures this.mode == mode && State() == Panel(map[], [])
    {
      this.mode, last, calls := mode, map[], [];
    }

    ghost function State(): Panel
      reads this
    {
      Panel(last, calls)
    }

    /** `_lever`. */
    method Lever(c: Pull) returns (r: Result)
      modifies this
      ensures State() == After(mode, old(State()), c)
      ensures r == Result(c.lever.name, OldValue(old(State()), c.lever.name),
                          Aim(c.lever, OldValue(old(State()), c.lever.name), c.target), Judge(mode, old(State()), c))
    {
      var name := c.lever.name;
      var wanted := Clamp(c.lever, c.target);
      var before: Option<Setting> := None;
      var t := 0.0;
      if name in last { before, t := Some(last[name].value), last[name].at; }
      if c.lever.step.Some? && before.Some? && before.value.Num? && wanted.Num? {
        var delta := wanted.n - before.value.n;
        delta := Max(0 - c.lever.step.value, Min(c.lever.step.value, delta));
        wanted := Clamp(c.lever, Num(before.value.n + delta));
      }
      if before == Some(wanted) { return Result(name, before, wanted, Unchanged); }
      if c.now - t < mode.minInterval { return Result(name, before, wanted, RateLimited); }
      if mode.dry {
        last := last[name := Record(wanted, c.now)];
        return Result(name, before, wanted, DryRun);
      }
      calls := calls + [(name, wanted)];
      if c.ok { last := last[name := Record(wanted, c.now)]; }
      r := Result(name, before, wanted, if c.ok then Applied else ApplyFailed);
    }

    /** The part of `restore_baseline` that concerns the levers. */
    method Forget()
      modifies this
      ensures State() == Panel(map[], old(State()).calls)
    {
      last := map[];
    }
  }

  // ---------------------------------------------------------------- runs

  function Run(m: Mode, p: Panel, pulls: seq<Pull>): Panel
    decreases |pulls|
  {
    if pulls == [] then p else Run(m, After(m, p, pulls[0]), pulls[1..])
  }

  predicate Records(m: Mode, p: Panel, c: Pull, name: string) {
    c.lever.name == name && (Judge(m, p, c).DryRun? || Judge(m, p, c).Applied?)
  }

  /** What a run records for one lever, in order. */
  function Trace(m: Mode, p: Panel, pulls: seq<Pull>, name: string): seq<Record>
    decreases |pulls|
  {
    if pulls == [] then []
    else
      var rest := Trace(m, After(m, p, pulls[0]), pulls[1..], name);
      if Records(m, p, pulls[0], name) then [After(m, p, pulls[0]).last[name]] + rest else rest
  }

  predicate Sound(l: Lever) {
    l.bounds.Some? ==> l.bounds.value.0 <= l.bounds.value.1
  }

  /** A numeric lever with bounds. */
  predicate InRange(l: Lever, r: Record)
    requires l.bounds.Some?
  {
    r.value.Num? && l.bounds.value.0 <= r.value.n <= l.bounds.value.1
  }

  /** One recorded value after another. */
  predicate Follows(m: Mode, l: Lever, a: Record, b: Record) {
    && b.at - a.at >= m.minInterval && a.value != b.value
    && (l.step.Some? && a.value.Num? && b.value.Num? ==> Abs(b.value.n - a.value.n) <= l.step.value)
  }

  /** Every pull of this lever's name is a pull of this lever with a value of its kind. */
  predicate Proper(l: Lever, pulls: seq<Pull>) {
    forall k :: 0 <= k < |pulls| && pulls[k].lever.name == l.name ==>
      pulls[k].lever == l && (l.bounds.Some? ==> pulls[k].target.Num?)
  }

  predicate ChainOk(m: Mode, l: Lever, p: Panel, trace: seq<Record>)
    requires l.bounds.Some?
  {
    && (forall k :: 0 <= k < |trace| ==> InRange(l, trace[k]))
    && (forall k :: 0 <= k < |trace| - 1 ==> Follows(m, l, trace[k], trace[k + 1]))
    && (l.name in p.last && trace != [] ==> Follows(m, l, p.last[l.name], trace[0]))
  }

  lemma AimSpec(l: Lever, before: Option<Setting>, target: Setting)
    requires l.bounds.Some? && Sound(l) && target.Num?
    requires before.Some? ==> before.value.Num? && l.bounds.value.0 <= before.value.n <= l.bounds.value.1
    ensures Aim(l, before, target).Num? && l.bounds.value.0 <= Aim(l, before, target).n <= l.bounds.value.1
    ensures l.step.Some? && before.Some? ==>
              Aim(l, before, target).n == Toward(before.value.n, Clamp(l, target).n, l.step.value)
  {
  }

  /** The value is the one nearest to the target, within the bounds and, when a value is
      recorded and the lever has a step, within one step of it. */
  lemma AimIsNearest(l: Lever, before: Option<Setting>, target: Setting, other: int)
    requires l.bounds.Some? && Sound(l) && target.Num?
    requires before.Some? ==> before.value.Num? && l.bounds.value.0 <= before.value.n <= l.bounds.value.1
    requires l.bounds.value.0 <= other <= l.bounds.value.1
    requires l.step.Some? && before.Some? ==> Abs(other - before.value.n) <= l.step.value
    ensures Aim(l, before, target).Num? && Abs(target.n - Aim(l, before, target).n) <= Abs(target.n - other)
    ensures l.bounds.value.0 <= Aim(l, before, target).n <= l.bounds.value.1
    ensures l.step.Some? && before.Some? ==> Abs(Aim(l, before, target).n - before.value.n) <= l.step.value
  {
  }

  /** The first value of a lever is its clamped target; the minimum interval counts from time
      0.0.  A lever without bounds takes any value as it is. */
  lemma FirstPull(m: Mode, p: Panel, c: Pull)
    requires c.lever.name !in p.last
    ensures var l, wanted := c.lever, Aim(c.lever, None, c.target);
            && (l.bounds.Some? && Sound(l) && c.target.Num? ==>
                  var lo, hi := l.bounds.value.0, l.bounds.value.1;
                  wanted == Num(if c.target.n < lo then lo else if c.target.n > hi then hi else c.target.n))
            && (l.bounds.None? ==> wanted == c.target)
    ensures var q := After(m, p, c);
            if c.now < m.minInterval then q == p
            else if m.dry then q == Panel(p.last[c.lever.name := Record(Aim(c.lever, None, c.target), c.now)], p.calls)
            else && q.calls == p.calls + [(c.lever.name, Aim(c.lever, None, c.target))]
                 && q.last == if c.ok then p.last[c.lever.name := Record(Aim(c.lever, None, c.target), c.now)]
                              else p.last
  {
  }

  lemma PullChains(m: Mode, l: Lever, p: Panel, c: Pull)
    requires l.bounds.Some? && Sound(l) && c.lever == l && c.target.Num?
    requires l.name in p.last ==> InRange(l, p.last[l.name])
    ensures l.name in After(m, p, c).last ==> InRange(l, After(m, p, c).last[l.name])
    ensures Records(m, p, c, l.name) && l.name in p.last ==> Follows(m, l, p.last[l.name], After(m, p, c).last[l.name])
  {
    AimSpec(l, OldValue(p, l.name), c.target);
  }

  /** Over any run of calls to any levers, the values recorded for a numeric lever stay in
      its bounds, and successive ones differ by at most its step and are at least the
      minimum interval apart. */
  lemma {:induction false} LeverRuns(m: Mode, l: Lever, p: Panel, pulls: seq<Pull>)
    requires l.bounds.Some? && Sound(l) && Proper(l, pulls)
    requires l.name in p.last ==> InRange(l, p.last[l.name])
    ensures ChainOk(m, l, p, Trace(m, p, pulls, l.name))
    ensures l.name in Run(m, p, pulls).last ==> InRange(l, Run(m, p, pulls).last[l.name])
    decreases |pulls|
  {
    if pulls != [] {
      var c, q := pulls[0], After(m, p, pulls[0]);
      if c.lever.name == l.name { PullChains(m, l, p, c); }
      assert forall k :: 0 <= k < |pulls[1..]| ==> pulls[1..][k] == pulls[k + 1];
      LeverRuns(m, l, q, pulls[1..]);
      var rest := Trace(m, q, pulls[1..], l.name);
      if Records(m, p, c, l.name) {
        var trace := [q.last[l.name]] + rest;
        assert forall k :: 1 <= k < |trace| ==> trace[k] == rest[k - 1];
      }
    }
  }

  /** What is recorded is the last of the trace. */
  lemma {:induction false} TraceEnds(m: Mode, p: Panel, pulls: seq<Pull>, name: string)
    ensures var t := Trace(m, p, pulls, name);
            if t == [] then (name in Run(m, p, pulls).last <==> name in p.last)
                            && (name in p.last ==> Run(m, p, pulls).last[name] == p.last[name])
            else name in Run(m, p, pulls).last && Run(m, p, pulls).last[name] == t[|t| - 1]
    decreases |pulls|
  {
    if pulls != [] { TraceEnds(m, After(m, p, pulls[0]), pulls[1..], name); }
  }

  // ---------------------------------------------------------------- the backend

  /** The backend actions a run asks for, without the mode. */
  function Attempts(m: Mode, p: Panel, pulls: seq<Pull>): nat
    decreases |pulls|
  {
    if pulls == [] then 0
    else
      (if Judge(m, p, pulls[0]).Unchanged? || Judge(m, p, pulls[0]).RateLimited? then 0 else 1)
      + Attempts(m, After(m, p, pulls[0]), pulls[1..])
  }

  /** A dry run never calls the backend; a wet one calls it once for each call that is
      neither unchanged nor rate-limited. */
  lemma {:induction false} BackendCalls(m: Mode, p: Panel, pulls: seq<Pull>)
    ensures m.dry ==> Run(m, p, pulls).calls == p.calls
    ensures !m.dry ==> |Run(m, p, pulls).calls| == |p.calls| + Attempts(m, p, pulls)
    decreases |pulls|
  {
    if pulls != [] { BackendCalls(m, After(m, p, pulls[0]), pulls[1..]); }
  }

  /** The value given to a numeric lever's backend is in the bounds and, when a value is
      recorded, within one step of it. */
  predicate GivenOk(l: Lever, p: Panel, v: Setting)
    requires l.bounds.Some?
  {
    && v.Num? && l.bounds.value.0 <= v.n <= l.bounds.value.1
    && (l.step.Some? && l.name in p.last && p.last[l.name].value.Num? ==>
          p.last[l.name].value.n - l.step.value <= v.n <= p.last[l.name].value.n + l.step.value)
  }

  /** One pull calls no backend, or that of its own lever once; a call of this lever's is given
      such a value, and when its action succeeds the value is then what is recorded. */
  predicate CallOk(l: Lever, p: Panel, c: Pull, q: Panel)
    requires l.bounds.Some?
  {
    q.calls == p.calls ||
    (var name := c.lever.name;
     && p.calls < q.calls && |q.calls| == |p.calls| + 1 && q.calls[|p.calls|].0 == name
     && (name == l.name ==> GivenOk(l, p, q.calls[|p.calls|].1))
     && (c.ok ==> name in q.last && q.calls[|p.calls|].1 == q.last[name].value))
  }

  predicate EveryCallOk(m: Mode, l: Lever, p: Panel, pulls: seq<Pull>)
    requires l.bounds.Some?
    decreases |pulls|
  {
    pulls == [] ||
    (CallOk(l, p, pulls[0], After(m, p, pulls[0])) && EveryCallOk(m, l, After(m, p, pulls[0]), pulls[1..]))
  }

  lemma PullCalls(m: Mode, l: Lever, p: Panel, c: Pull)
    requires l.bounds.Some? && Sound(l) && (c.lever.name == l.name ==> c.lever == l && c.target.Num?)
    requires l.name in p.last ==> InRange(l, p.last[l.name])
    ensures CallOk(l, p, c, After(m, p, c))
  {
    if c.lever == l { AimSpec(l, OldValue(p, l.name), c.target); }
  }

  /** Over any run of calls to any levers, every value that the backend of a numeric lever is
      called with is in its bounds and within one step of what is recorded at that moment, and
      a successful call is what is recorded next. */
  lemma {:induction false} BackendValues(m: Mode, l: Lever, p: Panel, pulls: seq<Pull>)
    requires l.bounds.Some? && Sound(l) && Proper(l, pulls)
    requires l.name in p.last ==> InRange(l, p.last[l.name])
    ensures EveryCallOk(m, l, p, pulls)
    ensures var calls := Run(m, p, pulls).calls;
            && p.calls <= calls
            && forall k :: |p.calls| <= k < |calls| && calls[k].0 == l.name ==>
                 calls[k].1.Num? && l.bounds.value.0 <= calls[k].1.n <= l.bounds.value.1
    decreases |pulls|
  {
    if pulls != [] {
      var q := After(m, p, pulls[0]);
      assert forall k :: 0 <= k < |pulls[1..]| ==> pulls[1..][k] == pulls[k + 1];
      PullCalls(m, l, p, pulls[0]);
      if pulls[0].lever.name == l.name { PullChains(m, l, p, pulls[0]); }
      BackendValues(m, l, q, pulls[1..]);
      assert |p.calls| < |q.calls| ==> Run(m, p, pulls).calls[|p.calls|] == q.calls[|p.calls|];
    }
  }

  /** A call leaves no trace exactly if its value is the one recorded already, and then it says
      so even within the minimum interval, or if the last change is less than that ago. */
  lemma NoTraceIff(m: Mode, p: Panel, c: Pull)
    requires c.lever.name in p.last
    ensures var name := c.lever.name;
            var same := Aim(c.lever, Some(p.last[name].value), c.target) == p.last[name].value;
            && (After(m, p, c) == p <==> same || c.now < p.last[name].at + m.minInterval)
            && (Judge(m, p, c).Unchanged? <==> same)
            && (Judge(m, p, c).RateLimited? <==> !same && After(m, p, c) == p)
  {
    if After(m, p, c) == p { assert |After(m, p, c).calls| == |p.calls|; }
  }

  /** What an applied call records is what its backend was called with, just then. */
  lemma AppliedIsCalled(m: Mode, p: Panel, c: Pull)
    requires Judge(m, p, c).Applied?
    ensures var q := After(m, p, c);
            && c.lever.name in q.last && q.last[c.lever.name].at == c.now
            && q.calls == p.calls + [(c.lever.name, q.last[c.lever.name].value)]
  {
  }

  /** A run without the calls whose backend action failed. */
  function Succeeding(m: Mode, p: Panel, pulls: seq<Pull>): seq<Pull>
    decreases |pulls|
  {
    if pulls == [] then []
    else
      var rest := Succeeding(m, After(m, p, pulls[0]), pulls[1..]);
      if Judge(m, p, pulls[0]).ApplyFailed? then rest else [pulls[0]] + rest
  }

  /** A verdict and what is recorded do not depend on the backend calls so far. */
  lemma SameRecords(m: Mode, p: Panel, q: Panel, c: Pull)
    requires p.last == q.last
    ensures Judge(m, p, c) == Judge(m, q, c) && After(m, p, c).last == After(m, q, c).last
  {
  }

  /** Two runs record the same, and the second has no failed call. */
  ghost predicate SameButCalls(m: Mode, p: Panel, pulls: seq<Pull>, q: Panel, kept: seq<Pull>, name: string) {
    && Run(m, q, kept).last == Run(m, p, pulls).last
    && Trace(m, q, kept, name) == Trace(m, p, pulls, name)
    && Succeeding(m, q, kept) == kept
  }

  lemma KeptFirst(m: Mode, p: Panel, pulls: seq<Pull>, q: Panel, kept: seq<Pull>, name: string)
    requires pulls != [] && !Judge(m, p, pulls[0]).ApplyFailed? && p.last == q.last
    requires SameButCalls(m, After(m, p, pulls[0]), pulls[1..], After(m, q, pulls[0]), kept, name)
    ensures SameButCalls(m, p, pulls, q, [pulls[0]] + kept, name)
  {
    SameRecords(m, p, q, pulls[0]);
    assert ([pulls[0]] + kept)[1..] == kept;
  }

  /** Failed actions leave no mark: a run records the same values at the same times, for every
      lever, and answers every other call the same, when the failed calls are left out.  (A
      failed call does not even start the minimum interval, so it may be made again at once.) */
  lemma {:induction false} FailureChangesNothing(m: Mode, p: Panel, q: Panel, pulls: seq<Pull>, name: string)
    requires p.last == q.last
    ensures SameButCalls(m, p, pulls, q, Succeeding(m, p, pulls), name)
    decreases |pulls|
  {
    if pulls != [] {
      var c := pulls[0];
      SameRecords(m, p, q, c);
      if Judge(m, p, c).ApplyFailed? {
        FailureChangesNothing(m, After(m, p, c), q, pulls[1..], name);
      } else {
        var kept := Succeeding(m, After(m, p, c), pulls[1..]);
        FailureChangesNothing(m, After(m, p, c), After(m, q, c), pulls[1..], name);
        KeptFirst(m, p, pulls, q, kept, name);
      }
    }
  }

  /** The same call made again at once, when its action then succeeds, is applied. */
  lemma RetryIsApplied(m: Mode, p: Panel, c: Pull)
    requires Judge(m, p, c).ApplyFailed?
    ensures Judge(m, After(m, p, c), c.(ok := true)).Applied?
  {
  }

  // ---------------------------------------------------------------- convergence

  /** Calls for the same numeric target, each the minimum interval after the last record
      and after each other, all succeeding. */
  predicate Spaced(m: Mode, l: Lever, goal: int, at: Seconds, pulls: seq<Pull>) {
    && (forall k :: 0 <= k < |pulls| ==> pulls[k].lever == l && pulls[k].target == Num(goal) && (m.dry || pulls[k].ok))
    && (pulls != [] ==> pulls[0].now - at >= m.minInterval)
    && forall k :: 0 <= k < |pulls| - 1 ==> pulls[k + 1].now - pulls[k].now >= m.minInterval
  }

  /** The distance after k steps. */
  function Walked(start: int, goal: int, step: nat, k: nat): int {
    Toward(start, goal, k * step)
  }

  /** ceil(distance / step), see `CeilBound`. */
  function Ceil(distance: nat, step: nat): nat
    requires step >= 1
  {
    if distance == 0 then 0 else if distance <= step then 1 else 1 + Ceil(distance - step, step)
  }

  /** The ceiling is the least number of steps that cover the distance. */
  lemma {:induction false} CeilBound(distance: nat, step: nat, k: nat)
    requires step >= 1
    ensures k * step >= distance <==> k >= Ceil(distance, step)
  {
    if k == 0 {
    } else if distance <= step {
      assert k * step >= step;
    } else {
      assert k * step == (k - 1) * step + step;
      CeilBound(distance - step, step, k - 1);
    }
  }

  lemma WalkedFirst(start: int, goal: int, step: nat, k: nat)
    requires k >= 1
    ensures Walked(Toward(start, goal, step), goal, step, k - 1) == Walked(start, goal, step, k)
  {
    assert k * step == (k - 1) * step + step;
    assert (k - 1) * step >= 0;
  }

  /** k steps reach the goal exactly when k is at least the ceiling. */
  lemma ReachedIff(start: int, goal: int, step: nat, k: nat)
    requires step >= 1
    ensures Walked(start, goal, step, k) == goal <==> k >= Ceil(Abs(goal - start), step)
  {
    var d := Abs(goal - start);
    CeilBound(d, step, k);
  }

  /** One spaced, succeeding call. */
  lemma OnePull(m: Mode, l: Lever, goal: int, p: Panel, c: Pull)
    requires l.bounds.Some? && Sound(l) && l.step.Some? && l.step.value >= 1
    requires l.name in p.last && InRange(l, p.last[l.name]) && c.lever == l && c.target == Num(goal)
    requires c.now - p.last[l.name].at >= m.minInterval && (m.dry || c.ok)
    ensures var start := p.last[l.name].value.n;
            var next := Toward(start, Clamp(l, Num(goal)).n, l.step.value);
            && (Records(m, p, c, l.name) <==> next != start)
            && After(m, p, c).last == (if next == start then p.last else p.last[l.name := Record(Num(next), c.now)])
            && l.bounds.value.0 <= next <= l.bounds.value.1
  {
    AimSpec(l, Some(p.last[l.name].value), c.target);
  }

  lemma OneStepCloser(start: int, goal: int, step: nat)
    requires step >= 1
    ensures var next := Toward(start, goal, step);
            Ceil(Abs(goal - start), step) == Ceil(Abs(goal - next), step) + if next == start then 0 else 1
    ensures Toward(start, goal, step) == start ==> goal == start
  {
  }

  lemma LaterSpaced(m: Mode, l: Lever, goal: int, at: Seconds, pulls: seq<Pull>)
    requires pulls != [] && m.minInterval >= 0.0 && Spaced(m, l, goal, at, pulls)
    ensures Spaced(m, l, goal, at, pulls[1..]) && Spaced(m, l, goal, pulls[0].now, pulls[1..])
  {
    var rest := pulls[1..];
    assert forall k :: 0 <= k < |rest| ==> rest[k] == pulls[k + 1];
    forall k | 0 <= k < |rest| - 1 ensures rest[k + 1].now - rest[k].now >= m.minInterval {
      assert rest[k + 1] == pulls[k + 1 + 1];
    }
    if rest != [] { assert rest[0] == pulls[0 + 1]; }
  }

  /** Repeating a target reaches its clamped value in exactly ceil(distance / step) recorded
      changes, and then nothing changes any more: after k calls the value is the k-step
      point, and the number of changes is k or that ceiling, whichever is less. */
  lemma {:induction false} Converges(m: Mode, l: Lever, goal: int, p: Panel, pulls: seq<Pull>)
    requires l.bounds.Some? && Sound(l) && l.step.Some? && l.step.value >= 1
    requires l.name in p.last && InRange(l, p.last[l.name])
    requires m.minInterval >= 0.0 && Spaced(m, l, goal, p.last[l.name].at, pulls)
    ensures var start, g, step := p.last[l.name].value.n, Clamp(l, Num(goal)).n, l.step.value;
            var n := Ceil(Abs(g - start), step);
            var end := Run(m, p, pulls).last;
            && l.name in end && end[l.name].value == Num(Walked(start, g, step, |pulls|))
            && |Trace(m, p, pulls, l.name)| == Min(|pulls|, n)
            && (end[l.name].value == Num(g) <==> |pulls| >= n)
    decreases |pulls|
  {
    var start, g, step := p.last[l.name].value.n, Clamp(l, Num(goal)).n, l.step.value;
    ReachedIff(start, g, step, |pulls|);
    if pulls != [] {
      OnePull(m, l, goal, p, pulls[0]);
      OneStepCloser(start, g, step);
      LaterSpaced(m, l, goal, p.last[l.name].at, pulls);
      Converges(m, l, goal, After(m, p, pulls[0]), pulls[1..]);
      WalkedFirst(start, g, step, |pulls|);
    }
  }

  // ---------------------------------------------------------------- the setters

  function Numeric(name: string, lo: int, hi: int, step: nat): Lever {
    Lever(name, Some((lo, hi)), Some(step))
  }

  /** The numeric setters. */
  const NUMERIC: seq<Lever> := [
    Numeric("kv_reserve_mb", 0, 65536, 512),
    Numeric("safety_reserve_gb", 1, 64, 1),
    Numeric("workstation_reserve_mb", 0, 8192, 256),
    Numeric("virtual_vram_gb", 0, 512, 2),
    Numeric("pool_cap_mb", 4096, 1048576, 2048),
    Numeric("t3_cap_mb", 0, 1048576, 4096),
    Numeric("idle_cleanup_sec", 5, 3600, 30),
    Numeric("kv_size_threshold_mb", 1, 4096, 16),
    Numeric("swa_window_mb", 0, 65536, 1024),
    Numeric("swappiness", 1, 100, 20),
    Numeric("dirty_background_ratio", 1, 40, 10),
    Numeric("watermark_scale_factor", 10, 300, 50),
    Numeric("gpu_power_limit_w", 50, 600, 15)]

  /** Each of them meets what `LeverRuns` and `Converges` ask of a lever, and no recorded
      value is more than 510 changes away from any target. */
  lemma NumericSetters(k: nat, start: int, goal: int)
    requires k < |NUMERIC|
    requires var b := NUMERIC[k].bounds.value; b.0 <= start <= b.1
    ensures var l := NUMERIC[k];
            && l.bounds.Some? && Sound(l) && l.step.Some? && l.step.value >= 1
            && Ceil(Abs(Clamp(l, Num(goal)).n - start), l.step.value) <= 510
  {
    var l := NUMERIC[k];
    CeilBound(Abs(Clamp(l, Num(goal)).n - start), l.step.value, 510);
  }
}
