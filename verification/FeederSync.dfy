/** `sync_feeder_dataflux` (gb_cluster.py): pull the tail of a feeder's event log and
    re-emit what is newer than the last sync. */
module FeederSync {
  import opened Basics

  /** An event; a missing timestamp reads as 0. */
  datatype Event<+D> = Event(ts: real, node: Option<string>, data: D)

  /** What `json.loads` makes of a stripped line: nothing (blank or malformed), an event, or
      something without a numeric `ts`, on which the loop raises. */
  datatype Parsed<+D> = Malformed | Strange | Parsed(event: Event<D>)

  /** `synced` or the exception that leaves the function. */
  datatype Result = Ok(synced: nat) | Raised

  // ---------------------------------------------------------------- one sync

  /** `tail -n`. */
  function Tail<L>(lines: seq<L>, n: nat): seq<L> {
    lines[|lines| - Min(n, |lines|)..]
  }

  function Retag<D>(self: string, e: Event<D>): Event<D> {
    if e.node.None? || e.node.value in {"host", self, ""} then e.(node := Some(self)) else e
  }

  /** The events the loop re-emits before it ends or raises. */
  function Fresh<L, D>(parse: L -> Parsed<D>, self: string, lines: seq<L>, last: real): seq<Event<D>> {
    if lines == [] || parse(lines[0]).Strange? then []
    else
      var rest := Fresh(parse, self, lines[1..], last);
      if parse(lines[0]).Parsed? && parse(lines[0]).event.ts > last
      then [Retag(self, parse(lines[0]).event)] + rest
      else rest
  }

  predicate Raises<L, D>(parse: L -> Parsed<D>, lines: seq<L>) {
    exists k :: 0 <= k < |lines| && parse(lines[k]).Strange?
  }

  function MaxTs<D>(events: seq<Event<D>>, last: real): real {
    if events == [] then last else MaxTs(events[1..], MaxReal(last, events[0].ts))
  }

  function LastTs(state: map<string, real>, key: string): real {
    if key in state then state[key] else 0.0
  }

  /** The saved state after a sync that pulled these lines. */
  function Saved<L, D>(parse: L -> Parsed<D>, self: string, lines: seq<L>, state: map<string, real>,
        key: string): map<string, real> {
    var batch := Fresh(parse, self, lines, LastTs(state, key));
    if Raises(parse, lines) || batch == [] then state else state[key := MaxTs(batch, LastTs(state, key))]
  }

  /** The state file and the host's log, as far as this function writes them. */
  class Host<D> {
    var state: map<string, real>
    var log: seq<Event<D>>

    constructor ()
      ensures state == map[] && log == []
    {
      state, log := map[], [];
    }

    /** `sync_feeder_dataflux`; `pulled` is the output of ssh, None when that failed. */
    method Sync<L>(parse: L -> Parsed<D>, key: string, self: string, pulled: Option<seq<L>>) returns (r: Result)
      modifies this
      ensures pulled.None? ==> r == Ok(0) && state == old(state) && log == old(log)
      ensures pulled.Some? ==>
                var batch := Fresh(parse, self, pulled.value, LastTs(old(state), key));
                && log == old(log) + batch
                && state == Saved(parse, self, pulled.value, old(state), key)
                && r == if Raises(parse, pulled.value) then Raised else Ok(|batch|)
    {
      if pulled.None? { return Ok(0); }
      var lines := pulled.value;
      var last := LastTs(state, key);
      var synced, maxTs := 0, last;
      ghost var batch := Fresh(parse, self, lines, last);
      for k := 0 to |lines|
        invariant state == old(state)
        invariant synced <= |batch| && log == old(log) + batch[..synced]
        invariant batch[synced..] == Fresh(parse, self, lines[k..], last)
        invariant MaxTs(batch[synced..], maxTs) == MaxTs(batch, last)
        invariant forall i :: 0 <= i < k ==> !parse(lines[i]).Strange?
      {
        assert lines[k..][1..] == lines[k + 1..];
        var parsed := parse(lines[k]);
        if parsed.Strange? { assert batch[..synced] == batch; return Raised; }
        if parsed.Parsed? && parsed.event.ts > last {
          var ev := Retag(self, parsed.event);
          assert batch[synced..][0] == ev && batch[synced..][1..] == batch[synced + 1..];
          assert log + [ev] == old(log) + batch[..synced + 1];
          log := log + [ev];
          synced := synced + 1;
          maxTs := MaxReal(maxTs, ev.ts);
        }
      }
      assert batch[..synced] == batch;
      if synced > 0 { state := state[key := maxTs]; }
      r := Ok(synced);
    }
  }

  // ---------------------------------------------------------------- one sync, by positions

  /** Line i, from `first` on, is an event newer than the last sync, with no strange line before. */
  predicate IsFresh<L, D>(parse: L -> Parsed<D>, lines: seq<L>, first: nat, last: real, i: nat) {
    && first <= i < |lines| && parse(lines[i]).Parsed? && parse(lines[i]).event.ts > last
    && forall j :: first <= j < i ==> !parse(lines[j]).Strange?
  }

  /** `out` is what a sync re-emits of the lines from `first` on: the fresh ones, at the positions
      `idx`, each once and in their order. */
  ghost predicate ReEmits<L, D>(parse: L -> Parsed<D>, self: string, lines: seq<L>, first: nat, last: real,
        idx: seq<nat>, out: seq<Event<D>>)
  {
    && |idx| == |out| && Increasing(idx)
    && (forall k :: 0 <= k < |idx| ==>
          && idx[k] < |lines| && parse(lines[idx[k]]).Parsed?
          && out[k] == Retag(self, parse(lines[idx[k]]).event))
    && forall i: nat :: i in idx <==> IsFresh(parse, lines, first, last, i)
  }

  lemma FreshStep<L, D>(parse: L -> Parsed<D>, lines: seq<L>, first: nat, last: real, i: nat)
    requires first < |lines| && !parse(lines[first]).Strange?
    ensures IsFresh(parse, lines, first, last, i)
            <==> (i == first && parse(lines[first]).Parsed? && parse(lines[first]).event.ts > last)
                 || IsFresh(parse, lines, first + 1, last, i)
  {
  }

  /** A batch by positions, and by nothing else. */
  lemma {:induction false} FreshPositions<L, D>(parse: L -> Parsed<D>, self: string, lines: seq<L>, first: nat,
        last: real) returns (idx: seq<nat>)
    requires first <= |lines|
    ensures ReEmits(parse, self, lines, first, last, idx, Fresh(parse, self, lines[first..], last))
    decreases |lines| - first
  {
    if first == |lines| || parse(lines[first]).Strange? {
      idx := [];
    } else {
      var later := FreshPositions(parse, self, lines, first + 1, last);
      assert lines[first..][1..] == lines[first + 1..];
      var rest := Fresh(parse, self, lines[first + 1..], last);
      if parse(lines[first]).Parsed? && parse(lines[first]).event.ts > last {
        idx := [first] + later;
        OneMoreEvent(parse, self, lines, first, last, later, rest);
      } else {
        idx := later;
        Skipped(parse, self, lines, first, last, later, rest);
      }
    }
  }

  lemma OneMoreEvent<L, D>(parse: L -> Parsed<D>, self: string, lines: seq<L>, first: nat, last: real, idx: seq<nat>,
        out: seq<Event<D>>)
    requires first < |lines| && parse(lines[first]).Parsed? && parse(lines[first]).event.ts > last
    requires ReEmits(parse, self, lines, first + 1, last, idx, out)
    ensures ReEmits(parse, self, lines, first, last, [first] + idx, [Retag(self, parse(lines[first]).event)] + out)
  {
    Increases(first, idx);
    forall i: nat ensures i in [first] + idx <==> IsFresh(parse, lines, first, last, i) {
      FreshStep(parse, lines, first, last, i);
    }
  }

  lemma Skipped<L, D>(parse: L -> Parsed<D>, self: string, lines: seq<L>, first: nat, last: real, idx: seq<nat>,
        out: seq<Event<D>>)
    requires first < |lines| && !parse(lines[first]).Strange?
    requires !(parse(lines[first]).Parsed? && parse(lines[first]).event.ts > last)
    requires ReEmits(parse, self, lines, first + 1, last, idx, out)
    ensures ReEmits(parse, self, lines, first, last, idx, out)
  {
    forall i: nat ensures i in idx <==> IsFresh(parse, lines, first, last, i) {
      FreshStep(parse, lines, first, last, i);
    }
  }

  // ---------------------------------------------------------------- at most once

  predicate AllAbove<D>(events: seq<Event<D>>, t: real) {
    forall i :: 0 <= i < |events| ==> events[i].ts > t
  }

  predicate AllAtMost<D>(events: seq<Event<D>>, t: real) {
    forall i :: 0 <= i < |events| ==> events[i].ts <= t
  }

  lemma {:induction false} FreshAbove<L, D>(parse: L -> Parsed<D>, self: string, lines: seq<L>, last: real)
    ensures AllAbove(Fresh(parse, self, lines, last), last)
  {
    if lines != [] && !parse(lines[0]).Strange? { FreshAbove(parse, self, lines[1..], last); }
  }

  lemma {:induction false} MaxTsIsMax<D>(events: seq<Event<D>>, last: real)
    ensures MaxTs(events, last) >= last && AllAtMost(events, MaxTs(events, last))
    ensures MaxTs(events, last) == last || exists i :: 0 <= i < |events| && events[i].ts == MaxTs(events, last)
  {
    if events != [] {
      MaxTsIsMax(events[1..], MaxReal(last, events[0].ts));
      if MaxTs(events, last) == events[0].ts {
      } else if MaxTs(events, last) != last {
        var i :| 0 <= i < |events[1..]| && events[1..][i].ts == MaxTs(events, last);
        assert events[i + 1].ts == MaxTs(events, last);
      }
    }
  }

  /** What a sync saves: nothing if it raises or re-emits nothing; otherwise, for its own feeder
      alone, the timestamp of the newest event it has re-emitted.  A feeder that was never
      synced counts from 0. */
  lemma SavedSpec<L, D>(parse: L -> Parsed<D>, self: string, lines: seq<L>, state: map<string, real>, key: string)
    ensures var batch := Fresh(parse, self, lines, if key in state then state[key] else 0.0);
            var saved := Saved(parse, self, lines, state, key);
            if batch == [] || exists k :: 0 <= k < |lines| && parse(lines[k]).Strange? then saved == state
            else
              && key in saved && saved == state[key := saved[key]]
              && (forall i :: 0 <= i < |batch| ==> batch[i].ts <= saved[key])
              && exists i :: 0 <= i < |batch| && batch[i].ts == saved[key]
  {
    var last := LastTs(state, key);
    var batch := Fresh(parse, self, lines, last);
    FreshAbove(parse, self, lines, last);
    MaxTsIsMax(batch, last);
    if batch != [] { assert batch[0].ts > last; }
  }

  /** One sync of one feeder: the lines pulled, whatever they are. */
  function Syncs<L, D>(parse: L -> Parsed<D>, self: string, pulls: seq<seq<L>>, state: map<string, real>,
        key: string): seq<seq<Event<D>>>
    decreases |pulls|
  {
    if pulls == [] then []
    else
      [Fresh(parse, self, pulls[0], LastTs(state, key))]
      + Syncs(parse, self, pulls[1..], Saved(parse, self, pulls[0], state, key), key)
  }

  /** A sync that raises after it has re-emitted something: what it has re-emitted is not saved. */
  predicate Leaks<L, D(==)>(parse: L -> Parsed<D>, self: string, lines: seq<L>, last: real) {
    Raises(parse, lines) && Fresh(parse, self, lines, last) != []
  }

  predicate NoLeak<L, D(==)>(parse: L -> Parsed<D>, self: string, pulls: seq<seq<L>>, state: map<string, real>,
        key: string)
    decreases |pulls|
  {
    pulls == [] || (!Leaks(parse, self, pulls[0], LastTs(state, key))
                    && NoLeak(parse, self, pulls[1..], Saved(parse, self, pulls[0], state, key), key))
  }

  /** The saved timestamp never falls, and covers all that a sync re-emits unless it leaks. */
  lemma SavedCovers<L, D>(parse: L -> Parsed<D>, self: string, lines: seq<L>, state: map<string, real>, key: string)
    ensures var batch := Fresh(parse, self, lines, LastTs(state, key));
            var last := LastTs(Saved(parse, self, lines, state, key), key);
            && last >= LastTs(state, key)
            && (!Leaks(parse, self, lines, LastTs(state, key)) ==> AllAtMost(batch, last))
  {
    MaxTsIsMax(Fresh(parse, self, lines, LastTs(state, key)), LastTs(state, key));
  }

  lemma {:induction false} SyncsAbove<L, D>(parse: L -> Parsed<D>, self: string, pulls: seq<seq<L>>,
        state: map<string, real>, key: string)
    ensures var batches := Syncs(parse, self, pulls, state, key);
            |batches| == |pulls| && forall k :: 0 <= k < |batches| ==> AllAbove(batches[k], LastTs(state, key))
    decreases |pulls|
  {
    if pulls != [] {
      var batch, later := Fresh(parse, self, pulls[0], LastTs(state, key)), Saved(parse, self, pulls[0], state, key);
      FreshAbove(parse, self, pulls[0], LastTs(state, key));
      SavedCovers(parse, self, pulls[0], state, key);
      SyncsAbove(parse, self, pulls[1..], later, key);
      var rest := Syncs(parse, self, pulls[1..], later, key);
      forall k | 1 <= k < |rest| + 1 ensures AllAbove(([batch] + rest)[k], LastTs(state, key)) {
        assert ([batch] + rest)[k] == rest[k - 1];
      }
    }
  }

  /** Everything in the second batch is newer than everything in the first. */
  predicate Older<D>(first: seq<Event<D>>, second: seq<Event<D>>) {
    forall a, b :: 0 <= a < |first| && 0 <= b < |second| ==> first[a].ts < second[b].ts
  }

  predicate AtMostOnce<D>(batches: seq<seq<Event<D>>>) {
    forall i, j :: 0 <= i < j < |batches| ==> Older(batches[i], batches[j])
  }

  /** At most once, whatever the feeder's log does between syncs (growing, rotating,
      shrinking): as long as no sync before j leaks, everything that sync j re-emits is strictly
      newer than everything re-emitted before. */
  lemma {:induction false} NothingTwice<L, D>(parse: L -> Parsed<D>, self: string, pulls: seq<seq<L>>,
        state: map<string, real>, key: string, i: nat, j: nat)
    requires i < j < |pulls| && NoLeak(parse, self, pulls[..j], state, key)
    ensures var batches := Syncs(parse, self, pulls, state, key);
            |batches| == |pulls| && Older(batches[i], batches[j])
    decreases |pulls|
  {
    var batch, later := Fresh(parse, self, pulls[0], LastTs(state, key)), Saved(parse, self, pulls[0], state, key);
    var rest := Syncs(parse, self, pulls[1..], later, key);
    assert pulls[..j][1..] == pulls[1..][..j - 1];
    SyncsAbove(parse, self, pulls[1..], later, key);
    if i == 0 {
      SavedCovers(parse, self, pulls[0], state, key);
      assert AllAbove(rest[j - 1], LastTs(later, key));
    } else {
      NothingTwice(parse, self, pulls[1..], later, key, i - 1, j - 1);
    }
  }

  /** What the n-th sync of a run finds saved. */
  function StateAt<L, D>(parse: L -> Parsed<D>, self: string, pulls: seq<seq<L>>, state: map<string, real>,
        key: string, n: nat): map<string, real>
    requires n <= |pulls|
    decreases n
  {
    if n == 0 then state
    else StateAt(parse, self, pulls[1..], Saved(parse, self, pulls[0], state, key), key, n - 1)
  }

  lemma {:induction false} BatchAt<L, D>(parse: L -> Parsed<D>, self: string, pulls: seq<seq<L>>,
        state: map<string, real>, key: string, n: nat)
    requires n < |pulls|
    ensures |Syncs(parse, self, pulls, state, key)| == |pulls|
    ensures Syncs(parse, self, pulls, state, key)[n]
            == Fresh(parse, self, pulls[n], LastTs(StateAt(parse, self, pulls, state, key, n), key))
    decreases |pulls|
  {
    SyncsAbove(parse, self, pulls, state, key);
    if n > 0 { BatchAt(parse, self, pulls[1..], Saved(parse, self, pulls[0], state, key), key, n - 1); }
  }

  lemma {:induction false} FirstLeak<L, D>(parse: L -> Parsed<D>, self: string, pulls: seq<seq<L>>,
        state: map<string, real>, key: string) returns (n: nat)
    requires !NoLeak(parse, self, pulls, state, key)
    ensures n < |pulls| && Leaks(parse, self, pulls[n], LastTs(StateAt(parse, self, pulls, state, key, n), key))
    decreases |pulls|
  {
    if Leaks(parse, self, pulls[0], LastTs(state, key)) {
      n := 0;
    } else {
      n := FirstLeak(parse, self, pulls[1..], Saved(parse, self, pulls[0], state, key), key);
      n := n + 1;
    }
  }

  lemma {:induction false} NoLeakPrefix<L, D>(parse: L -> Parsed<D>, self: string, pulls: seq<seq<L>>,
        state: map<string, real>, key: string, n: nat)
    requires n <= |pulls| && NoLeak(parse, self, pulls, state, key)
    ensures NoLeak(parse, self, pulls[..n], state, key)
    decreases |pulls|
  {
    if n > 0 {
      NoLeakPrefix(parse, self, pulls[1..], Saved(parse, self, pulls[0], state, key), key, n - 1);
      assert pulls[..n][1..] == pulls[1..][..n - 1];
    }
  }

  lemma {:induction false} StateOfPrefix<L, D>(parse: L -> Parsed<D>, self: string, pulls: seq<seq<L>>,
        other: seq<seq<L>>, state: map<string, real>, key: string, n: nat)
    requires n <= |pulls| && n <= |other| && pulls[..n] == other[..n]
    ensures StateAt(parse, self, pulls, state, key, n) == StateAt(parse, self, other, state, key, n)
    decreases n
  {
    if n > 0 {
      assert pulls[0] == pulls[..n][0] == other[0];
      assert pulls[1..][..n - 1] == pulls[..n][1..] == other[1..][..n - 1];
      StateOfPrefix(parse, self, pulls[1..], other[1..], Saved(parse, self, pulls[0], state, key), key, n - 1);
    }
  }

  lemma {:induction false} StateNext<L, D>(parse: L -> Parsed<D>, self: string, pulls: seq<seq<L>>,
        state: map<string, real>, key: string, n: nat)
    requires n < |pulls|
    ensures StateAt(parse, self, pulls, state, key, n + 1)
            == Saved(parse, self, pulls[n], StateAt(parse, self, pulls, state, key, n), key)
    decreases n
  {
    if n > 0 { StateNext(parse, self, pulls[1..], Saved(parse, self, pulls[0], state, key), key, n - 1); }
  }

  /** The first n syncs of a run, and one more that pulls q. */
  function Then<L>(pulls: seq<seq<L>>, n: nat, q: seq<L>): seq<seq<L>>
    requires n <= |pulls|
  {
    pulls[..n] + [q]
  }

  /** A sync that leaks re-emits the same again when it is repeated. */
  lemma LeakRepeats<L, D>(parse: L -> Parsed<D>, self: string, pulls: seq<seq<L>>, state: map<string, real>,
        key: string, n: nat)
    requires n < |pulls| && Leaks(parse, self, pulls[n], LastTs(StateAt(parse, self, pulls, state, key, n), key))
    ensures !AtMostOnce(Syncs(parse, self, Then(pulls, n + 1, pulls[n]), state, key))
  {
    var again := Then(pulls, n + 1, pulls[n]);
    assert again[..n] == pulls[..n];
    StateOfPrefix(parse, self, pulls, again, state, key, n);
    StateNext(parse, self, again, state, key, n);
    BatchAt(parse, self, again, state, key, n);
    BatchAt(parse, self, again, state, key, n + 1);
    var batches: seq<seq<Event<D>>> := Syncs(parse, self, again, state, key);
    assert batches[n] == batches[n + 1] && !(batches[n][0].ts < batches[n + 1][0].ts);
  }

  lemma AllOlder<L, D>(parse: L -> Parsed<D>, self: string, pulls: seq<seq<L>>, state: map<string, real>, key: string,
        n: nat, q: seq<L>)
    requires n <= |pulls| && NoLeak(parse, self, pulls, state, key)
    ensures AtMostOnce(Syncs(parse, self, Then(pulls, n, q), state, key))
  {
    var longer := Then(pulls, n, q);
    SyncsAbove(parse, self, longer, state, key);
    var batches := Syncs(parse, self, longer, state, key);
    forall i, j | 0 <= i < j < |batches| ensures Older(batches[i], batches[j]) {
      assert longer[..j] == pulls[..j];
      NoLeakPrefix(parse, self, pulls, state, key, j);
      NothingTwice(parse, self, longer, state, key, i, j);
    }
  }

  /** The exact condition: at every point of a run and for every next pull, all is re-emitted at
      most once, if and only if no sync of the run leaks. */
  lemma AtMostOnceIff<L(!new), D>(parse: L -> Parsed<D>, self: string, pulls: seq<seq<L>>, state: map<string, real>,
        key: string)
    ensures (forall n: nat, q: seq<L> :: n <= |pulls| ==> AtMostOnce(Syncs(parse, self, Then(pulls, n, q), state, key)))
            <==> NoLeak(parse, self, pulls, state, key)
  {
    if NoLeak(parse, self, pulls, state, key) {
      forall n: nat, q: seq<L> | n <= |pulls| ensures AtMostOnce(Syncs(parse, self, Then(pulls, n, q), state, key)) {
        AllOlder(parse, self, pulls, state, key, n, q);
      }
    } else {
      var n := FirstLeak(parse, self, pulls, state, key);
      LeakRepeats(parse, self, pulls, state, key, n);
    }
  }

  /** A line that parses to something else breaks this: the sync raises after re-emitting
      what came before it, nothing is saved, and the next sync re-emits it again. */
  lemma StrangeLineRepeats()
    ensures var parse := (n: nat) => if n == 0 then Strange else Parsed(Event(n as real, None, n));
            var pulls := [[1, 0], [1, 0]];
            && Raises(parse, pulls[0])
            && Syncs(parse, "omen", pulls, map[], "k") == [[Event(1.0, Some("omen"), 1)], [Event(1.0, Some("omen"), 1)]]
  {
    var parse := (n: nat) => if n == 0 then Strange else Parsed(Event(n as real, None, n));
    var lines: seq<nat> := [1, 0];
    assert parse(lines[1]).Strange?;
    assert lines[1..] == [0];
    assert Fresh(parse, "omen", [0], 0.0) == [];
    assert Fresh(parse, "omen", lines, 0.0) == [Event(1.0, Some("omen"), 1)];
    assert [lines, lines][1..] == [lines] && [lines][1..] == [];
  }

  lemma {:induction false} FreshConcat<L, D>(parse: L -> Parsed<D>, self: string, a: seq<L>, b: seq<L>, last: real)
    ensures Fresh(parse, self, a + b, last)
            == if Raises(parse, a) then Fresh(parse, self, a, last)
               else Fresh(parse, self, a, last) + Fresh(parse, self, b, last)
  {
    if a == [] {
      assert a + b == b;
    } else if !parse(a[0]).Strange? {
      assert (a + b)[1..] == a[1..] + b;
      FreshConcat(parse, self, a[1..], b, last);
      RaisesTail(parse, a);
    }
  }

  lemma RaisesTail<L, D>(parse: L -> Parsed<D>, a: seq<L>)
    requires a != [] && !parse(a[0]).Strange?
    ensures Raises(parse, a) <==> Raises(parse, a[1..])
  {
    if Raises(parse, a) {
      var k :| 0 <= k < |a| && parse(a[k]).Strange?;
      assert a[1..][k - 1] == a[k];
    }
    if Raises(parse, a[1..]) {
      var k :| 0 <= k < |a[1..]| && parse(a[1..][k]).Strange?;
      assert a[k + 1] == a[1..][k];
    }
  }

  /** Two syncs of a growing log.  The first pulls p; the second, of which `tail` has dropped the
      first d lines, pulls the rest of p and what is new.  If p holds no strange line, the second
      re-emits new lines only.  If the strange line is still in reach, the second repeats exactly
      what the first re-emitted from the lines still in reach, and nothing new gets past.  If the
      first one is out of reach, so is everything the first sync re-emitted. */
  lemma SecondSync<L, D>(parse: L -> Parsed<D>, self: string, p: seq<L>, d: nat, more: seq<L>,
        state: map<string, real>, key: string)
    requires d <= |p|
    ensures var last, next := LastTs(state, key), LastTs(Saved(parse, self, p, state, key), key);
            var first, second := Fresh(parse, self, p, last), Fresh(parse, self, p[d..] + more, next);
            && (!Raises(parse, p) ==> second == Fresh(parse, self, more, next))
            && (!Raises(parse, p[..d]) && Raises(parse, p[d..]) ==>
                  second == Fresh(parse, self, p[d..], last) && first == Fresh(parse, self, p[..d], last) + second)
            && (Raises(parse, p[..d]) ==> first == Fresh(parse, self, p[..d], last))
  {
    var last := LastTs(state, key);
    assert p == p[..d] + p[d..];
    FreshConcat(parse, self, p[..d], p[d..], last);
    FreshConcat(parse, self, p[d..], more, last);
    if !Raises(parse, p) {
      PulledAtMost(parse, self, p, last);
      forall k | 0 <= k < |p[d..]| ensures !parse(p[d..][k]).Strange? { assert p[d..][k] == p[d + k]; }
      FreshOld(parse, self, p[d..], more, MaxTs(Fresh(parse, self, p, last), last));
      SavedLast(parse, self, p, state, key);
    } else if Raises(parse, p[d..]) {
      assert Saved(parse, self, p, state, key) == state;
    }
  }

  /** The same lines pulled twice: the second sync re-emits nothing if and only if the first did
      not leak. */
  lemma SamePullIff<L, D>(parse: L -> Parsed<D>, self: string, p: seq<L>, state: map<string, real>, key: string)
    ensures Fresh(parse, self, p, LastTs(Saved(parse, self, p, state, key), key)) == []
            <==> !Raises(parse, p) || Fresh(parse, self, p, LastTs(state, key)) == []
  {
    var none: seq<L> := [];
    SecondSync(parse, self, p, 0, none, state, key);
    assert p[0..] + none == p;
  }

  // ---------------------------------------------------------------- exactly once

  /** The events of a log, in order. */
  function Events<L, D>(parse: L -> Parsed<D>, lines: seq<L>): seq<Event<D>> {
    if lines == [] then []
    else
      var n := |lines| - 1;
      Events(parse, lines[..n]) + if parse(lines[n]).Parsed? then [parse(lines[n]).event] else []
  }

  function RetagAll<D>(self: string, events: seq<Event<D>>): seq<Event<D>> {
    seq(|events|, i requires 0 <= i < |events| => Retag(self, events[i]))
  }

  /** Event timestamps rise along the log, from above 0; no line makes the sync raise. */
  predicate Rising<L, D>(parse: L -> Parsed<D>, lines: seq<L>) {
    && (forall i :: 0 <= i < |lines| ==> !parse(lines[i]).Strange?)
    && (forall i :: 0 <= i < |lines| && parse(lines[i]).Parsed? ==> parse(lines[i]).event.ts > 0.0)
    && forall i, j :: 0 <= i < j < |lines| && parse(lines[i]).Parsed? && parse(lines[j]).Parsed? ==>
         parse(lines[i]).event.ts < parse(lines[j]).event.ts
  }

  /** The events of these lines are all newer than a time, or none is. */
  predicate LinesAbove<L, D>(parse: L -> Parsed<D>, lines: seq<L>, last: real) {
    forall i :: 0 <= i < |lines| && parse(lines[i]).Parsed? ==> parse(lines[i]).event.ts > last
  }

  predicate LinesAtMost<L, D>(parse: L -> Parsed<D>, lines: seq<L>, last: real) {
    forall i :: 0 <= i < |lines| && parse(lines[i]).Parsed? ==> parse(lines[i]).event.ts <= last
  }

  lemma {:induction false} EventsAppend<L, D>(parse: L -> Parsed<D>, a: seq<L>, b: seq<L>)
    ensures Events(parse, a + b) == Events(parse, a) + Events(parse, b)
  {
    if b == [] {
      assert a + b == a;
    } else {
      var n := |b| - 1;
      assert (a + b)[..|a| + n] == a + b[..n];
      EventsAppend(parse, a, b[..n]);
    }
  }

  lemma {:induction false} EventsHead<L, D>(parse: L -> Parsed<D>, lines: seq<L>)
    requires lines != []
    ensures Events(parse, lines)
            == (if parse(lines[0]).Parsed? then [parse(lines[0]).event] else []) + Events(parse, lines[1..])
  {
    assert lines == lines[..1] + lines[1..];
    EventsAppend(parse, lines[..1], lines[1..]);
    assert Events(parse, lines[..1][..0]) == [];
  }

  /** Old lines give nothing. */
  lemma {:induction false} FreshOld<L, D>(parse: L -> Parsed<D>, self: string, past: seq<L>, next: seq<L>, last: real)
    requires !Raises(parse, past) && LinesAtMost(parse, past, last)
    ensures Fresh(parse, self, past + next, last) == Fresh(parse, self, next, last)
  {
    if past == [] {
      assert past + next == next;
    } else {
      assert !parse(past[0]).Strange?;
      assert (past + next)[1..] == past[1..] + next;
      RaisesTail(parse, past);
      assert forall i :: 0 <= i < |past[1..]| ==> past[1..][i] == past[i + 1];
      FreshOld(parse, self, past[1..], next, last);
    }
  }

  /** New lines give all their events. */
  lemma {:induction false} FreshNew<L, D>(parse: L -> Parsed<D>, self: string, next: seq<L>, last: real)
    requires !Raises(parse, next) && LinesAbove(parse, next, last)
    ensures Fresh(parse, self, next, last) == RetagAll(self, Events(parse, next))
  {
    if next != [] {
      assert !parse(next[0]).Strange?;
      RaisesTail(parse, next);
      assert forall i :: 0 <= i < |next[1..]| ==> next[1..][i] == next[i + 1];
      FreshNew(parse, self, next[1..], last);
      FirstIsNew(parse, self, next, last);
    }
  }

  lemma FirstIsNew<L, D>(parse: L -> Parsed<D>, self: string, next: seq<L>, last: real)
    requires next != [] && !parse(next[0]).Strange? && (parse(next[0]).Parsed? ==> parse(next[0]).event.ts > last)
    requires Fresh(parse, self, next[1..], last) == RetagAll(self, Events(parse, next[1..]))
    ensures Fresh(parse, self, next, last) == RetagAll(self, Events(parse, next))
  {
    var first := if parse(next[0]).Parsed? then [parse(next[0]).event] else [];
    EventsHead(parse, next);
    RetagAppend(self, first, Events(parse, next[1..]));
    assert RetagAll(self, first) == if parse(next[0]).Parsed? then [Retag(self, parse(next[0]).event)] else [];
  }

  /** The state after syncing a log: everything in reach of `tail` is behind it, and it is
      0 or the timestamp of an event of the log. */
  ghost predicate UpTo<L, D>(parse: L -> Parsed<D>, log: seq<L>, maxLines: nat, last: real) {
    && LinesAtMost(parse, Tail(log, maxLines), last)
    && (last == 0.0 || exists i :: 0 <= i < |log| && parse(log[i]).Parsed? && parse(log[i]).event.ts == last)
  }

  /** The new lines that `tail` does not reach, and those it does. */
  function Dropped<L>(next: seq<L>, maxLines: nat): seq<L> {
    next[..|next| - Min(maxLines, |next|)]
  }

  lemma NewLinesAbove<L, D>(parse: L -> Parsed<D>, log: seq<L>, next: seq<L>, maxLines: nat, last: real)
    requires Rising(parse, log + next) && UpTo(parse, log, maxLines, last)
    ensures LinesAbove(parse, next, last)
  {
    var all := log + next;
    forall j | 0 <= j < |next| && parse(next[j]).Parsed? ensures parse(next[j]).event.ts > last {
      assert all[|log| + j] == next[j];
      if last != 0.0 {
        var i :| 0 <= i < |log| && parse(log[i]).Parsed? && parse(log[i]).event.ts == last;
        assert all[i] == log[i];
      }
    }
  }

  /** What `tail` pulls: some lines of the old log within its reach, then new lines. */
  lemma TailSplits<L>(log: seq<L>, next: seq<L>, maxLines: nat) returns (n: nat)
    ensures n <= |Tail(log, maxLines)|
    ensures Tail(log + next, maxLines) == Tail(Tail(log, maxLines), n) + Tail(next, maxLines)
  {
    n := Min(maxLines, |log + next|) - Min(maxLines, |next|);
  }

  lemma TailLines<L, D>(parse: L -> Parsed<D>, lines: seq<L>, n: nat)
    ensures !Raises(parse, lines) ==> !Raises(parse, Tail(lines, n))
    ensures forall t :: LinesAtMost(parse, lines, t) ==> LinesAtMost(parse, Tail(lines, n), t)
    ensures forall t :: LinesAbove(parse, lines, t) ==> LinesAbove(parse, Tail(lines, n), t)
  {
    var tail := Tail(lines, n);
    assert forall i :: 0 <= i < |tail| ==> tail[i] == lines[|lines| - |tail| + i];
  }

  lemma RisingParts<L, D>(parse: L -> Parsed<D>, log: seq<L>, next: seq<L>)
    requires Rising(parse, log + next)
    ensures !Raises(parse, log) && !Raises(parse, next)
  {
    forall i | 0 <= i < |log| ensures !parse(log[i]).Strange? { assert log[i] == (log + next)[i]; }
    forall i | 0 <= i < |next| ensures !parse(next[i]).Strange? { assert next[i] == (log + next)[|log| + i]; }
  }

  /** One sync of an append-only rising log re-emits exactly the events of the new lines
      that `tail` reaches. */
  lemma SyncReaches<L, D>(parse: L -> Parsed<D>, self: string, log: seq<L>, next: seq<L>, maxLines: nat, last: real)
    requires Rising(parse, log + next) && UpTo(parse, log, maxLines, last)
    ensures Fresh(parse, self, Tail(log + next, maxLines), last) == RetagAll(self, Events(parse, Tail(next, maxLines)))
  {
    NewLinesAbove(parse, log, next, maxLines, last);
    RisingParts(parse, log, next);
    var n := TailSplits(log, next, maxLines);
    TailLines(parse, log, maxLines);
    TailLines(parse, Tail(log, maxLines), n);
    TailLines(parse, next, maxLines);
    FreshOld(parse, self, Tail(Tail(log, maxLines), n), Tail(next, maxLines), last);
    FreshNew(parse, self, Tail(next, maxLines), last);
  }

  lemma {:induction false} BatchHas<L, D>(parse: L -> Parsed<D>, self: string, lines: seq<L>, last: real, i: nat)
    requires i < |lines| && !Raises(parse, lines) && parse(lines[i]).Parsed? && parse(lines[i]).event.ts > last
    ensures exists j :: 0 <= j < |Fresh(parse, self, lines, last)|
                        && Fresh(parse, self, lines, last)[j].ts == parse(lines[i]).event.ts
  {
    var batch, rest := Fresh(parse, self, lines, last), Fresh(parse, self, lines[1..], last);
    assert !parse(lines[0]).Strange?;
    if i == 0 {
      assert batch[0].ts == parse(lines[i]).event.ts;
    } else {
      RaisesTail(parse, lines);
      BatchHas(parse, self, lines[1..], last, i - 1);
      var j :| 0 <= j < |rest| && rest[j].ts == parse(lines[1..][i - 1]).event.ts;
      assert batch[|batch| - |rest| + j].ts == rest[j].ts;
    }
  }

  /** Every re-emitted event is a line's event, newer than the last sync, with its node set. */
  lemma {:induction false} BatchFrom<L, D>(parse: L -> Parsed<D>, self: string, lines: seq<L>, last: real, j: nat)
    returns (i: nat)
    requires j < |Fresh(parse, self, lines, last)|
    ensures i < |lines| && parse(lines[i]).Parsed? && parse(lines[i]).event.ts > last
    ensures Fresh(parse, self, lines, last)[j] == Retag(self, parse(lines[i]).event)
  {
    var batch, rest := Fresh(parse, self, lines, last), Fresh(parse, self, lines[1..], last);
    if |batch| == |rest| + 1 && j == 0 {
      i := 0;
    } else {
      assert batch[j] == rest[j - (|batch| - |rest|)];
      i := BatchFrom(parse, self, lines[1..], last, j - (|batch| - |rest|));
      i := i + 1;
    }
  }

  lemma PulledAtMost<L, D>(parse: L -> Parsed<D>, self: string, pulled: seq<L>, last: real)
    requires !Raises(parse, pulled)
    ensures LinesAtMost(parse, pulled, MaxTs(Fresh(parse, self, pulled, last), last))
  {
    var batch := Fresh(parse, self, pulled, last);
    MaxTsIsMax(batch, last);
    forall i | 0 <= i < |pulled| && parse(pulled[i]).Parsed? ensures parse(pulled[i]).event.ts <= MaxTs(batch, last) {
      if parse(pulled[i]).event.ts > last { BatchHas(parse, self, pulled, last, i); }
    }
  }

  predicate HasTs<L, D>(parse: L -> Parsed<D>, log: seq<L>, t: real) {
    exists i :: 0 <= i < |log| && parse(log[i]).Parsed? && parse(log[i]).event.ts == t
  }

  lemma PulledHasMax<L, D>(parse: L -> Parsed<D>, self: string, all: seq<L>, maxLines: nat, last: real)
    requires MaxTs(Fresh(parse, self, Tail(all, maxLines), last), last) != last
    ensures HasTs(parse, all, MaxTs(Fresh(parse, self, Tail(all, maxLines), last), last))
  {
    var pulled := Tail(all, maxLines);
    var batch := Fresh(parse, self, pulled, last);
    MaxTsIsMax(batch, last);
    var j :| 0 <= j < |batch| && batch[j].ts == MaxTs(batch, last);
    var i := BatchFrom(parse, self, pulled, last, j);
    assert all[|all| - |pulled| + i] == pulled[i];
  }

  lemma StaysUpTo<L, D>(parse: L -> Parsed<D>, self: string, log: seq<L>, next: seq<L>, maxLines: nat, last: real)
    requires Rising(parse, log + next) && UpTo(parse, log, maxLines, last)
    ensures !Raises(parse, Tail(log + next, maxLines))
    ensures UpTo(parse, log + next, maxLines, MaxTs(Fresh(parse, self, Tail(log + next, maxLines), last), last))
  {
    var all := log + next;
    var pulled := Tail(all, maxLines);
    assert !Raises(parse, all);
    TailLines(parse, all, maxLines);
    PulledAtMost(parse, self, pulled, last);
    if MaxTs(Fresh(parse, self, pulled, last), last) != last {
      PulledHasMax(parse, self, all, maxLines, last);
    } else if last != 0.0 {
      var i :| 0 <= i < |log| && parse(log[i]).Parsed? && parse(log[i]).event.ts == last;
      assert all[i] == log[i];
    }
  }

  // ---------------------------------------------------------------- runs on a growing log

  /** Everything re-emitted when the log grows by `nexts[k]` before the k-th sync. */
  function Emitted<L, D>(parse: L -> Parsed<D>, self: string, log: seq<L>, nexts: seq<seq<L>>, maxLines: nat,
        state: map<string, real>, key: string): seq<Event<D>>
    decreases |nexts|
  {
    if nexts == [] then []
    else
      var all := log + nexts[0];
      Fresh(parse, self, Tail(all, maxLines), LastTs(state, key))
      + Emitted(parse, self, all, nexts[1..], maxLines, Saved(parse, self, Tail(all, maxLines), state, key), key)
  }

  function Flat<L>(nexts: seq<seq<L>>): seq<L> {
    if nexts == [] then [] else nexts[0] + Flat(nexts[1..])
  }

  /** The events that `tail` reaches when they are new. */
  function Reached<L, D>(parse: L -> Parsed<D>, nexts: seq<seq<L>>, maxLines: nat): seq<Event<D>> {
    if nexts == [] then [] else Events(parse, Tail(nexts[0], maxLines)) + Reached(parse, nexts[1..], maxLines)
  }

  /** How many events it does not reach. */
  function Lost<L, D>(parse: L -> Parsed<D>, nexts: seq<seq<L>>, maxLines: nat): nat {
    if nexts == [] then 0 else |Events(parse, Dropped(nexts[0], maxLines))| + Lost(parse, nexts[1..], maxLines)
  }

  lemma RetagAppend<D>(self: string, a: seq<Event<D>>, b: seq<Event<D>>)
    ensures RetagAll(self, a + b) == RetagAll(self, a) + RetagAll(self, b)
  {
  }

  lemma RisingPrefix<L, D>(parse: L -> Parsed<D>, a: seq<L>, b: seq<L>)
    requires Rising(parse, a + b)
    ensures Rising(parse, a)
  {
    assert forall i :: 0 <= i < |a| ==> (a + b)[i] == a[i];
  }

  lemma SavedLast<L, D>(parse: L -> Parsed<D>, self: string, pulled: seq<L>, state: map<string, real>, key: string)
    requires !Raises(parse, pulled)
    ensures LastTs(Saved(parse, self, pulled, state, key), key)
            == MaxTs(Fresh(parse, self, pulled, LastTs(state, key)), LastTs(state, key))
  {
  }

  /** Over a run on a log that only grows, exactly the events within reach of `tail` when
      they are new are re-emitted, once and in order; an event out of reach never is. */
  lemma {:induction false} EmitsWhatIsReached<L, D>(parse: L -> Parsed<D>, self: string, log: seq<L>,
        nexts: seq<seq<L>>, maxLines: nat, state: map<string, real>, key: string)
    requires Rising(parse, log + Flat(nexts)) && UpTo(parse, log, maxLines, LastTs(state, key))
    ensures Emitted(parse, self, log, nexts, maxLines, state, key) == RetagAll(self, Reached(parse, nexts, maxLines))
    decreases |nexts|
  {
    if nexts != [] {
      var last, all := LastTs(state, key), log + nexts[0];
      assert log + Flat(nexts) == all + Flat(nexts[1..]);
      RisingPrefix(parse, all, Flat(nexts[1..]));
      SyncReaches(parse, self, log, nexts[0], maxLines, last);
      StaysUpTo(parse, self, log, nexts[0], maxLines, last);
      SavedLast(parse, self, Tail(all, maxLines), state, key);
      EmitsWhatIsReached(parse, self, all, nexts[1..], maxLines,
        Saved(parse, self, Tail(all, maxLines), state, key), key);
      RetagAppend(self, Events(parse, Tail(nexts[0], maxLines)), Reached(parse, nexts[1..], maxLines));
    }
  }

  lemma SplitEvents<L, D>(parse: L -> Parsed<D>, next: seq<L>, maxLines: nat)
    ensures Events(parse, next) == Events(parse, Dropped(next, maxLines)) + Events(parse, Tail(next, maxLines))
  {
    assert next == Dropped(next, maxLines) + Tail(next, maxLines);
    EventsAppend(parse, Dropped(next, maxLines), Tail(next, maxLines));
  }

  lemma {:induction false} LostCount<L, D>(parse: L -> Parsed<D>, nexts: seq<seq<L>>, maxLines: nat)
    ensures |Events(parse, Flat(nexts))| == |Reached(parse, nexts, maxLines)| + Lost(parse, nexts, maxLines)
  {
    if nexts != [] {
      EventsAppend(parse, nexts[0], Flat(nexts[1..]));
      SplitEvents(parse, nexts[0], maxLines);
      LostCount(parse, nexts[1..], maxLines);
    }
  }

  lemma {:induction false} NoneLost<L, D>(parse: L -> Parsed<D>, nexts: seq<seq<L>>, maxLines: nat)
    requires Lost(parse, nexts, maxLines) == 0
    ensures Events(parse, Flat(nexts)) == Reached(parse, nexts, maxLines)
  {
    if nexts != [] {
      EventsAppend(parse, nexts[0], Flat(nexts[1..]));
      SplitEvents(parse, nexts[0], maxLines);
      assert [] + Events(parse, Tail(nexts[0], maxLines)) == Events(parse, Tail(nexts[0], maxLines));
      NoneLost(parse, nexts[1..], maxLines);
    }
  }

  /** No sync finds an event among the new lines beyond its reach. */
  predicate AllInReach<L, D(==)>(parse: L -> Parsed<D>, nexts: seq<seq<L>>, maxLines: nat) {
    forall k :: 0 <= k < |nexts| ==> Events(parse, Dropped(nexts[k], maxLines)) == []
  }

  lemma {:induction false} LostIff<L, D>(parse: L -> Parsed<D>, nexts: seq<seq<L>>, maxLines: nat)
    ensures Lost(parse, nexts, maxLines) == 0 <==> AllInReach(parse, nexts, maxLines)
  {
    if nexts != [] {
      LostIff(parse, nexts[1..], maxLines);
      assert forall k :: 1 <= k < |nexts| ==> nexts[k] == nexts[1..][k - 1];
      assert forall k :: 0 <= k < |nexts[1..]| ==> nexts[1..][k] == nexts[k + 1];
    }
  }

  /** Exactly once and in order, if and only if no sync finds an event among the new lines
      beyond its reach. */
  lemma ExactlyOnceIff<L, D>(parse: L -> Parsed<D>, self: string, nexts: seq<seq<L>>, maxLines: nat, key: string)
    requires Rising(parse, Flat(nexts))
    ensures Emitted(parse, self, [], nexts, maxLines, map[], key) == RetagAll(self, Events(parse, Flat(nexts)))
            <==> AllInReach(parse, nexts, maxLines)
  {
    EmitsFromStart(parse, self, nexts, maxLines, key);
    LostIff(parse, nexts, maxLines);
    if Lost(parse, nexts, maxLines) == 0 {
      NoneLost(parse, nexts, maxLines);
    } else {
      LostCount(parse, nexts, maxLines);
      RetagLength(self, Events(parse, Flat(nexts)), Reached(parse, nexts, maxLines));
    }
  }

  lemma EmitsFromStart<L, D>(parse: L -> Parsed<D>, self: string, nexts: seq<seq<L>>, maxLines: nat, key: string)
    requires Rising(parse, Flat(nexts))
    ensures Emitted(parse, self, [], nexts, maxLines, map[], key) == RetagAll(self, Reached(parse, nexts, maxLines))
  {
    var none: seq<L> := [];
    assert none + Flat(nexts) == Flat(nexts);
    StartsUpTo(parse, none, maxLines);
    EmitsWhatIsReached(parse, self, none, nexts, maxLines, map[], key);
  }

  lemma StartsUpTo<L, D>(parse: L -> Parsed<D>, none: seq<L>, maxLines: nat)
    requires none == []
    ensures UpTo(parse, none, maxLines, 0.0)
  {
  }

  lemma RetagLength<D>(self: string, a: seq<Event<D>>, b: seq<Event<D>>)
    requires |a| != |b|
    ensures RetagAll(self, a) != RetagAll(self, b)
  {
    assert |RetagAll(self, a)| == |a| && |RetagAll(self, b)| == |b|;
  }

  /** In particular with at most `maxLines` new lines before each sync. */
  lemma FewNewLines<L, D>(parse: L -> Parsed<D>, self: string, nexts: seq<seq<L>>, maxLines: nat, key: string)
    requires Rising(parse, Flat(nexts)) && forall k :: 0 <= k < |nexts| ==> |nexts[k]| <= maxLines
    ensures Emitted(parse, self, [], nexts, maxLines, map[], key) == RetagAll(self, Events(parse, Flat(nexts)))
  {
    assert forall k :: 0 <= k < |nexts| ==> Dropped(nexts[k], maxLines) == [];
    ExactlyOnceIff(parse, self, nexts, maxLines, key);
  }

  /** Syncs before which the log has not grown. */
  function Idle<L>(n: nat): seq<seq<L>> {
    if n == 0 then [] else [[]] + Idle(n - 1)
  }

  /** A sync before which the log has not grown re-emits nothing and saves nothing. */
  lemma {:induction false} IdleSyncs<L, D>(parse: L -> Parsed<D>, self: string, log: seq<L>, n: nat, maxLines: nat,
        state: map<string, real>, key: string)
    requires Rising(parse, log) && UpTo(parse, log, maxLines, LastTs(state, key))
    ensures Emitted(parse, self, log, Idle(n), maxLines, state, key) == []
  {
    if n > 0 {
      var none: seq<L> := [];
      assert log + none == log && Idle<L>(n)[0] == none && Idle<L>(n)[1..] == Idle(n - 1);
      SyncReaches(parse, self, log, none, maxLines, LastTs(state, key));
      assert Tail(none, maxLines) == none;
      IdleSyncs(parse, self, log, n - 1, maxLines, state, key);
    }
  }

  lemma FirstSync<L, D>(parse: L -> Parsed<D>, self: string, backlog: seq<L>, maxLines: nat, state: map<string, real>,
        key: string)
    requires Rising(parse, backlog) && LastTs(state, key) == 0.0
    ensures Fresh(parse, self, Tail(backlog, maxLines), 0.0) == RetagAll(self, Events(parse, Tail(backlog, maxLines)))
    ensures UpTo(parse, backlog, maxLines, LastTs(Saved(parse, self, Tail(backlog, maxLines), state, key), key))
  {
    var none: seq<L> := [];
    assert none + backlog == backlog;
    StartsUpTo(parse, none, maxLines);
    SyncReaches(parse, self, none, backlog, maxLines, 0.0);
    StaysUpTo(parse, self, none, backlog, maxLines, 0.0);
    SavedLast(parse, self, Tail(backlog, maxLines), state, key);
  }

  lemma EmittedFirst<L, D>(parse: L -> Parsed<D>, self: string, log: seq<L>, next: seq<L>, rest: seq<seq<L>>,
        maxLines: nat, state: map<string, real>, key: string)
    ensures var pulled := Tail(log + next, maxLines);
            Emitted(parse, self, log, [next] + rest, maxLines, state, key)
            == Fresh(parse, self, pulled, LastTs(state, key))
               + Emitted(parse, self, log + next, rest, maxLines, Saved(parse, self, pulled, state, key), key)
  {
    assert ([next] + rest)[1..] == rest;
  }

  /** A backlog does not drain over later calls: what the first sync does not reach stays
      behind, however many syncs follow. */
  lemma BacklogIsNotDrained<L, D>(parse: L -> Parsed<D>, self: string, backlog: seq<L>, later: nat, maxLines: nat,
        key: string)
    requires Rising(parse, backlog)
    ensures Emitted(parse, self, [], [backlog] + Idle(later), maxLines, map[], key)
            == RetagAll(self, Events(parse, Tail(backlog, maxLines)))
  {
    var none: seq<L> := [];
    assert none + backlog == backlog;
    FirstSync(parse, self, backlog, maxLines, map[], key);
    EmittedFirst(parse, self, none, backlog, Idle(later), maxLines, map[], key);
    IdleSyncs(parse, self, backlog, later, maxLines, Saved(parse, self, Tail(backlog, maxLines), map[], key), key);
  }

  // ---------------------------------------------------------------- node tags

  /** Every re-emitted event is that of a pulled line but for its node: one without a node, or
      under the name "host", gets the feeder's own name, and a foreign name is kept.  So only a
      feeder that is itself called "host" has events tagged "host". */
  lemma NeverTaggedHost<L, D>(parse: L -> Parsed<D>, self: string, lines: seq<L>, last: real, j: nat) returns (i: nat)
    requires j < |Fresh(parse, self, lines, last)|
    ensures i < |lines| && parse(lines[i]).Parsed? && parse(lines[i]).event.ts > last
    ensures var e, out := parse(lines[i]).event, Fresh(parse, self, lines, last)[j];
            && out.ts == e.ts && out.data == e.data
            && (e.node in {None, Some(""), Some("host"), Some(self)} ==> out.node == Some(self))
            && (e.node !in {None, Some(""), Some("host"), Some(self)} ==> out.node == e.node)
            && (out.node == Some("host") ==> self == "host") && (out.node in {None, Some("")} ==> self == "")
  {
    i := BatchFrom(parse, self, lines, last, j);
  }
}
