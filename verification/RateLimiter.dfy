/** The per-client sliding window of gb_a2a.py: `_rate_ok` keeps a pruned table and answers
    as if it remembered every accepted request. */
module RateLimiter {

  const WINDOW: real := 60.0

  type Table = map<string, seq<real>>

  datatype Request = Request(client: string, now: real)

  /** `[t for t in hits if now - t < 60.0]`. */
  function Recent(hits: seq<real>, now: real): seq<real> {
    if hits == [] then []
    else
      var n := |hits| - 1;
      Recent(hits[..n], now) + if now - hits[n] < WINDOW then [hits[n]] else []
  }

  function Of(table: Table, client: string): seq<real> {
    if client in table then table[client] else []
  }

  predicate Stale(hits: seq<real>, now: real) {
    hits == [] || now - hits[|hits| - 1] >= WINDOW
  }

  /** The table after its bound has been enforced. */
  function Prune(table: Table, limit: nat, now: real): Table {
    if |table| > limit then table - (set k | k in table && Stale(table[k], now)) else table
  }

  predicate Accepts(table: Table, rate: int, limit: nat, r: Request) {
    |Recent(Of(Prune(table, limit, r.now), r.client), r.now)| < rate
  }

  function After(table: Table, rate: int, limit: nat, r: Request): Table {
    var recent := Recent(Of(Prune(table, limit, r.now), r.client), r.now);
    Prune(table, limit, r.now)[r.client := if |recent| < rate then recent + [r.now] else recent]
  }

  // ---------------------------------------------------------------- the limiter

  class Limiter {
    var hits: Table
    const rate: int

    constructor (rate: int)
      ensures this.rate == rate && hits == map[]
    {
      this.rate, hits := rate, map[];
    }

    /** `_rate_ok`. */
    method RateOk(client: string, now: real) returns (ok: bool)
      modifies this
      ensures ok <==> Accepts(old(hits), rate, 1024, Request(client, now))
      ensures hits == After(old(hits), rate, 1024, Request(client, now))
    {
      if |hits| > 1024 {
        hits := hits - (set k | k in hits && Stale(hits[k], now));
      }
      var stored: seq<real> := if client in hits then hits[client] else [];
      var recent: seq<real> := [];
      for k := 0 to |stored|
        invariant recent == Recent(stored[..k], now)
        invariant hits == Prune(old(hits), 1024, now)
      {
        assert stored[..k + 1][..k] == stored[..k];
        if now - stored[k] < WINDOW { recent := recent + [stored[k]]; }
      }
      assert stored[..|stored|] == stored;
      ok := |recent| < rate;
      if ok { recent := recent + [now]; }
      hits := hits[client := recent];
    }
  }

  // ---------------------------------------------------------------- the reference

  /** Every accepted request of every client, never forgotten. */
  function Full(history: Table, r: Request, ok: bool): Table {
    if ok then history[r.client := Of(history, r.client) + [r.now]] else history
  }

  predicate FullAccepts(history: Table, rate: int, r: Request) {
    |Recent(Of(history, r.client), r.now)| < rate
  }

  predicate Sorted(hits: seq<real>, upTo: real) {
    && (forall i, j :: 0 <= i < j < |hits| ==> hits[i] <= hits[j])
    && forall i :: 0 <= i < |hits| ==> hits[i] <= upTo
  }

  /** The table and the full history agree on what is still in the window. */
  ghost predicate Refines(table: Table, history: Table, clock: real) {
    forall c: string :: Agree(Of(table, c), Of(history, c), clock)
  }

  predicate Agree(kept: seq<real>, full: seq<real>, clock: real) {
    Sorted(kept, clock) && Sorted(full, clock) && Recent(kept, clock) == Recent(full, clock)
  }

  // ---------------------------------------------------------------- windows

  lemma {:induction false} RecentAppend(hits: seq<real>, t: real, now: real)
    ensures Recent(hits + [t], now) == Recent(hits, now) + if now - t < WINDOW then [t] else []
  {
    assert (hits + [t])[..|hits|] == hits;
  }

  /** Looking later at what was recent earlier is looking later at everything. */
  lemma {:induction false} RecentLater(hits: seq<real>, clock: real, now: real)
    requires clock <= now
    ensures Recent(Recent(hits, clock), now) == Recent(hits, now)
  {
    if hits != [] {
      var n := |hits| - 1;
      RecentLater(hits[..n], clock, now);
      if clock - hits[n] < WINDOW { RecentAppend(Recent(hits[..n], clock), hits[n], now); }
      else { assert Recent(hits[..n], clock) + [] == Recent(hits[..n], clock); }
    }
  }

  lemma {:induction false} StaleMeansNoneRecent(hits: seq<real>, upTo: real, now: real)
    requires Sorted(hits, upTo) && Stale(hits, now)
    ensures Recent(hits, now) == []
  {
    if hits != [] {
      var n := |hits| - 1;
      if n > 0 { assert hits[n - 1] <= hits[n]; }
      StaleMeansNoneRecent(hits[..n], upTo, now);
    }
  }

  lemma {:induction false} RecentSorted(hits: seq<real>, upTo: real, now: real)
    requires Sorted(hits, upTo)
    ensures Sorted(Recent(hits, now), upTo)
  {
    if hits != [] {
      var n := |hits| - 1;
      RecentSorted(hits[..n], hits[n], now);
      SortedAppend(Recent(hits[..n], now), hits[n]);
    }
  }

  lemma SortedAppend(hits: seq<real>, now: real)
    requires Sorted(hits, now)
    ensures Sorted(hits + [now], now)
  {
  }

  lemma AgreeLater(kept: seq<real>, full: seq<real>, clock: real, now: real)
    requires Agree(kept, full, clock) && clock <= now
    ensures Agree(kept, full, now)
  {
    RecentLater(kept, clock, now);
    RecentLater(full, clock, now);
  }

  lemma PrunedAgrees(kept: seq<real>, full: seq<real>, now: real)
    requires Agree(kept, full, now)
    ensures Stale(kept, now) ==> Agree([], full, now)
    ensures Agree(Recent(kept, now), full, now)
  {
    if Stale(kept, now) { StaleMeansNoneRecent(kept, now, now); }
    RecentLater(kept, now, now);
    RecentSorted(kept, now, now);
  }

  lemma AcceptedAgrees(kept: seq<real>, full: seq<real>, now: real)
    requires Agree(kept, full, now)
    ensures Agree(kept + [now], full + [now], now)
  {
    RecentAppend(kept, now, now);
    RecentAppend(full, now, now);
    SortedAppend(kept, now);
    SortedAppend(full, now);
  }

  // ---------------------------------------------------------------- refinement

  lemma PruneRefines(table: Table, history: Table, limit: nat, now: real)
    requires Refines(table, history, now)
    ensures Refines(Prune(table, limit, now), history, now)
  {
    forall c: string ensures Agree(Of(Prune(table, limit, now), c), Of(history, c), now) {
      PrunedAgrees(Of(table, c), Of(history, c), now);
    }
  }

  lemma RefinesLater(table: Table, history: Table, clock: real, now: real)
    requires Refines(table, history, clock) && clock <= now
    ensures Refines(table, history, now)
  {
    forall c: string
      ensures Agree(Of(table, c), Of(history, c), now)
    {
      AgreeLater(Of(table, c), Of(history, c), clock, now);
    }
  }

  lemma SetRefines(table: Table, history: Table, now: real, client: string, kept: seq<real>, full: seq<real>)
    requires Refines(table, history, now) && Agree(kept, full, now)
    ensures Refines(table[client := kept], history[client := full], now)
  {
    var table', history' := table[client := kept], history[client := full];
    forall c: string ensures Agree(Of(table', c), Of(history', c), now) {
      if c != client { assert Of(table', c) == Of(table, c) && Of(history', c) == Of(history, c); }
    }
  }

  lemma KeptRefines(table: Table, history: Table, now: real, client: string)
    requires Refines(table, history, now)
    ensures Refines(table[client := Recent(Of(table, client), now)], history, now)
  {
    var kept, full := Of(table, client), Of(history, client);
    PrunedAgrees(kept, full, now);
    var table' := table[client := Recent(kept, now)];
    forall c: string ensures Agree(Of(table', c), Of(history, c), now) {
      if c != client { assert Of(table', c) == Of(table, c); }
    }
  }

  lemma GrownRefines(table: Table, history: Table, now: real, client: string)
    requires Refines(table, history, now)
    ensures Refines(table[client := Recent(Of(table, client), now) + [now]],
                    history[client := Of(history, client) + [now]], now)
  {
    var kept, full := Of(table, client), Of(history, client);
    PrunedAgrees(kept, full, now);
    AcceptedAgrees(Recent(kept, now), full, now);
    SetRefines(table, history, now, client, Recent(kept, now) + [now], full + [now]);
  }

  /** One request: whatever the bound on the table, the answer is that of the full history,
      and the two stay in step. */
  lemma RequestRefines(table: Table, history: Table, clock: real, rate: int, limit: nat, r: Request)
    requires Refines(table, history, clock) && clock <= r.now
    ensures Accepts(table, rate, limit, r) <==> FullAccepts(history, rate, r)
    ensures Refines(After(table, rate, limit, r), Full(history, r, FullAccepts(history, rate, r)), r.now)
  {
    RefinesLater(table, history, clock, r.now);
    PruneRefines(table, history, limit, r.now);
    var pruned := Prune(table, limit, r.now);
    assert Agree(Of(pruned, r.client), Of(history, r.client), r.now);
    if Accepts(table, rate, limit, r) {
      GrownRefines(pruned, history, r.now, r.client);
    } else {
      KeptRefines(pruned, history, r.now, r.client);
    }
  }

  predicate InOrder(clock: real, rs: seq<Request>) {
    (rs != [] ==> clock <= rs[0].now) && forall k :: 0 <= k < |rs| - 1 ==> rs[k].now <= rs[k + 1].now
  }

  function Answers(table: Table, rate: int, limit: nat, rs: seq<Request>): seq<bool>
    decreases |rs|
  {
    if rs == [] then []
    else [Accepts(table, rate, limit, rs[0])] + Answers(After(table, rate, limit, rs[0]), rate, limit, rs[1..])
  }

  function FullAnswers(history: Table, rate: int, rs: seq<Request>): seq<bool>
    decreases |rs|
  {
    if rs == [] then []
    else
      [FullAccepts(history, rate, rs[0])]
      + FullAnswers(Full(history, rs[0], FullAccepts(history, rate, rs[0])), rate, rs[1..])
  }

  lemma {:induction false} RunRefines(table: Table, history: Table, clock: real, rate: int, limit: nat,
        rs: seq<Request>)
    requires Refines(table, history, clock) && InOrder(clock, rs)
    ensures Answers(table, rate, limit, rs) == FullAnswers(history, rate, rs)
    decreases |rs|
  {
    if rs != [] {
      RequestRefines(table, history, clock, rate, limit, rs[0]);
      assert InOrder(rs[0].now, rs[1..]) by {
        assert forall k :: 0 <= k < |rs[1..]| ==> rs[1..][k] == rs[k + 1];
        if rs[1..] != [] { assert rs[0].now <= rs[0 + 1].now; }
      }
      var later := Full(history, rs[0], FullAccepts(history, rate, rs[0]));
      RunRefines(After(table, rate, limit, rs[0]), later, rs[0].now, rate, limit, rs[1..]);
    }
  }

  /** With a clock that never runs backwards, the limiter answers every request exactly as
      one that remembers the whole accepted history; so the bound on its table, whatever
      it is, never changes an answer. */
  lemma PruningIsInvisible(rate: int, limit: nat, clock: real, rs: seq<Request>)
    requires InOrder(clock, rs)
    ensures Answers(map[], rate, limit, rs) == FullAnswers(map[], rate, rs)
  {
    forall c: string ensures Agree(Of(map[], c), Of(map[], c), clock) {}
    RunRefines(map[], map[], clock, rate, limit, rs);
  }

  /** A clock that jumps back can let one request too many through: the third request is
      within 60 seconds of the first two. */
  lemma BackwardClockForgets()
    ensures var rs := [Request("a", 100.0), Request("a", 200.0), Request("a", 130.0)];
            && Answers(map[], 2, 1024, rs) == [true, true, true]
            && FullAnswers(map[], 2, rs) == [true, true, false]
  {
    var r0, r1, r2 := Request("a", 100.0), Request("a", 200.0), Request("a", 130.0);
    assert [r1, r2][1..] == [r2] && [r0, r1, r2][1..] == [r1, r2];
    ThreeKept(r0, r1, r2);
    ThreeFull(r0, r1, r2);
  }

  lemma ThreeKept(r0: Request, r1: Request, r2: Request)
    requires r0 == Request("a", 100.0) && r1 == Request("a", 200.0) && r2 == Request("a", 130.0)
    ensures Accepts(map[], 2, 1024, r0)
    ensures var t1 := After(map[], 2, 1024, r0);
            && Accepts(t1, 2, 1024, r1)
            && Accepts(After(t1, 2, 1024, r1), 2, 1024, r2)
  {
    RecentAppend([], 100.0, 200.0);
    var t1 := After(map[], 2, 1024, r0);
    assert t1 == map["a" := [100.0]];
    RecentAppend([], 200.0, 130.0);
    var t2 := After(t1, 2, 1024, r1);
    assert t2 == map["a" := [200.0]];
  }

  lemma ThreeFull(r0: Request, r1: Request, r2: Request)
    requires r0 == Request("a", 100.0) && r1 == Request("a", 200.0) && r2 == Request("a", 130.0)
    ensures FullAccepts(map[], 2, r0)
    ensures var h1 := Full(map[], r0, true);
            && FullAccepts(h1, 2, r1)
            && !FullAccepts(Full(h1, r1, true), 2, r2)
  {
    RecentAppend([], 100.0, 200.0);
    RecentAppend([], 100.0, 130.0);
    RecentAppend([100.0], 200.0, 130.0);
    var h1 := Full(map[], r0, true);
    assert Of(h1, "a") == [100.0];
    assert Of(Full(h1, r1, true), "a") == [100.0] + [200.0];
  }

  // ---------------------------------------------------------------- the window bound

  /** The accepted times in the window (t - 60, t]. */
  function InWindow(hits: seq<real>, t: real): seq<real> {
    if hits == [] then []
    else
      var n := |hits| - 1;
      InWindow(hits[..n], t) + if t - WINDOW < hits[n] <= t then [hits[n]] else []
  }

  /** Every accepted request found fewer than `rate` recent ones before it. */
  predicate Admitted(hits: seq<real>, rate: int) {
    forall k :: 0 <= k < |hits| ==> |Recent(hits[..k], hits[k])| < rate
  }

  lemma {:induction false} WindowIsRecent(hits: seq<real>, t: real, x: real)
    requires x <= t
    ensures |InWindow(hits, t)| <= |Recent(hits, x)|
  {
    if hits != [] { WindowIsRecent(hits[..|hits| - 1], t, x); }
  }

  lemma AdmittedPrefix(hits: seq<real>, rate: int)
    requires Admitted(hits, rate) && hits != []
    ensures Admitted(hits[..|hits| - 1], rate)
  {
    var before := hits[..|hits| - 1];
    forall k | 0 <= k < |before| ensures |Recent(before[..k], before[k])| < rate { assert before[..k] == hits[..k]; }
  }

  lemma {:induction false} WindowBound(hits: seq<real>, rate: int, t: real)
    requires Admitted(hits, rate) && rate >= 0
    ensures |InWindow(hits, t)| <= rate
  {
    if hits != [] {
      var n := |hits| - 1;
      AdmittedPrefix(hits, rate);
      WindowBound(hits[..n], rate, t);
      assert |Recent(hits[..n], hits[n])| < rate;
      if t - WINDOW < hits[n] <= t { WindowIsRecent(hits[..n], t, hits[n]); }
    }
  }

  function History(history: Table, rate: int, rs: seq<Request>): Table
    decreases |rs|
  {
    if rs == [] then history else History(Full(history, rs[0], FullAccepts(history, rate, rs[0])), rate, rs[1..])
  }

  lemma AdmitOne(hits: seq<real>, rate: int, now: real)
    requires Admitted(hits, rate) && |Recent(hits, now)| < rate
    ensures Admitted(hits + [now], rate)
  {
    forall k | 0 <= k < |hits| + 1 ensures |Recent((hits + [now])[..k], (hits + [now])[k])| < rate {
      if k < |hits| { assert (hits + [now])[..k] == hits[..k]; } else { assert (hits + [now])[..k] == hits; }
    }
  }

  lemma {:induction false} HistoryAdmitted(history: Table, rate: int, rs: seq<Request>, client: string)
    requires Admitted(Of(history, client), rate)
    ensures Admitted(Of(History(history, rate, rs), client), rate)
    decreases |rs|
  {
    if rs != [] {
      var ok := FullAccepts(history, rate, rs[0]);
      if ok && rs[0].client == client { AdmitOne(Of(history, client), rate, rs[0].now); }
      HistoryAdmitted(Full(history, rs[0], ok), rate, rs[1..], client);
    }
  }

  /** The times of one client's requests that were answered yes. */
  function AcceptedTimes(rs: seq<Request>, answers: seq<bool>, client: string): seq<real>
    requires |answers| == |rs|
    decreases |rs|
  {
    if rs == [] then []
    else
      (if answers[0] && rs[0].client == client then [rs[0].now] else [])
      + AcceptedTimes(rs[1..], answers[1..], client)
  }

  lemma {:induction false} FullAnswersLength(history: Table, rate: int, rs: seq<Request>)
    ensures |FullAnswers(history, rate, rs)| == |rs|
    decreases |rs|
  {
    if rs != [] {
      FullAnswersLength(Full(history, rs[0], FullAccepts(history, rate, rs[0])), rate, rs[1..]);
    }
  }

  lemma {:induction false} HistoryIsAccepted(history: Table, rate: int, rs: seq<Request>, client: string,
        answers: seq<bool>)
    requires answers == FullAnswers(history, rate, rs) && |answers| == |rs|
    ensures Of(History(history, rate, rs), client) == Of(history, client) + AcceptedTimes(rs, answers, client)
    decreases |rs|
  {
    if rs != [] {
      var ok := FullAccepts(history, rate, rs[0]);
      var later, rest := Full(history, rs[0], ok), AcceptedTimes(rs[1..], answers[1..], client);
      HistoryIsAccepted(later, rate, rs[1..], client, answers[1..]);
      HistoryStep(history, rs[0], ok, client, Of(History(later, rate, rs[1..]), client), rest);
    }
  }

  lemma HistoryStep(history: Table, r: Request, ok: bool, client: string, all: seq<real>, rest: seq<real>)
    requires all == Of(Full(history, r, ok), client) + rest
    ensures all == Of(history, client) + ((if ok && r.client == client then [r.now] else []) + rest)
  {
  }

  /** As long as the limiter answers like the full history, no window (t - 60, t] holds more
      of one client's accepted requests than the rate. */
  lemma SameAnswersBound(rate: int, limit: nat, rs: seq<Request>, client: string, t: real)
    requires rate >= 0 && Answers(map[], rate, limit, rs) == FullAnswers(map[], rate, rs)
    ensures |Answers(map[], rate, limit, rs)| == |rs|
    ensures |InWindow(AcceptedTimes(rs, Answers(map[], rate, limit, rs), client), t)| <= rate
  {
    HistoryAdmitted(map[], rate, rs, client);
    WindowBound(Of(History(map[], rate, rs), client), rate, t);
    FullAnswersLength(map[], rate, rs);
    HistoryIsAccepted(map[], rate, rs, client, FullAnswers(map[], rate, rs));
    var times := AcceptedTimes(rs, FullAnswers(map[], rate, rs), client);
    assert Of(map[], client) + times == times;
  }

  /** With a clock that never runs backwards, no window (t - 60, t] holds more requests of one
      client that the limiter accepts than the rate, whatever the bound on its table. */
  lemma NoWindowExceedsRate(rate: int, limit: nat, clock: real, rs: seq<Request>, client: string, t: real)
    requires rate >= 0 && InOrder(clock, rs)
    ensures |Answers(map[], rate, limit, rs)| == |rs|
    ensures |InWindow(AcceptedTimes(rs, Answers(map[], rate, limit, rs), client), t)| <= rate
  {
    PruningIsInvisible(rate, limit, clock, rs);
    SameAnswersBound(rate, limit, rs, client, t);
  }

  /** One more request of the only client, which finds fewer than two recent ones. */
  lemma AnswersStep(hits: seq<real>, recent: seq<real>, now: real, rest: seq<Request>)
    requires Recent(hits, now) == recent && |recent| < 2
    ensures Answers(map["a" := hits], 2, 1024, [Request("a", now)] + rest)
            == [true] + Answers(map["a" := recent + [now]], 2, 1024, rest)
  {
    var table := map["a" := hits];
    assert ([Request("a", now)] + rest)[1..] == rest;
    assert Prune(table, 1024, now) == table;
    assert After(table, 2, 1024, Request("a", now)) == map["a" := recent + [now]];
  }

  lemma FirstAnswer(now: real, rest: seq<Request>)
    ensures Answers(map[], 2, 1024, [Request("a", now)] + rest) == [true] + Answers(map["a" := [now]], 2, 1024, rest)
  {
    assert ([Request("a", now)] + rest)[1..] == rest;
    assert Recent([], now) == [] && [] + [now] == [now];
    assert After(map[], 2, 1024, Request("a", now)) == map["a" := [now]];
  }

  /** When the clock steps back the bound fails too: with a rate of 2 all four requests are
      accepted, and (50, 110] holds three of them. */
  lemma BackwardClockExceedsRate()
    ensures var rs := [Request("a", 100.0), Request("a", 100.0), Request("a", 170.0), Request("a", 110.0)];
            && Answers(map[], 2, 1024, rs) == [true, true, true, true]
            && AcceptedTimes(rs, [true, true, true, true], "a") == [100.0, 100.0, 170.0, 110.0]
            && InWindow([100.0, 100.0, 170.0, 110.0], 110.0) == [100.0, 100.0, 110.0]
  {
    FourKept();
    FourTimes();
    FourInWindow();
  }

  lemma FirstTwo(t: real, u: real, rest: seq<Request>)
    requires Recent([t], u) == [t]
    ensures Answers(map[], 2, 1024, [Request("a", t)] + ([Request("a", u)] + rest))
            == [true] + ([true] + Answers(map["a" := [t] + [u]], 2, 1024, rest))
  {
    FirstAnswer(t, [Request("a", u)] + rest);
    AnswersStep([t], [t], u, rest);
  }

  lemma LastTwo(hits: seq<real>, t: real, u: real)
    requires Recent(hits, t) == [] && Recent([] + [t], u) == [t]
    ensures Answers(map["a" := hits], 2, 1024, [Request("a", t)] + ([Request("a", u)] + [])) == [true] + ([true] + [])
  {
    AnswersStep(hits, [], t, [Request("a", u)] + []);
    AnswersStep([] + [t], [t], u, []);
  }

  lemma FourKept()
    ensures Answers(map[], 2, 1024,
            [Request("a", 100.0), Request("a", 100.0), Request("a", 170.0), Request("a", 110.0)])
            == [true, true, true, true]
  {
    var r, s, u := Request("a", 100.0), Request("a", 170.0), Request("a", 110.0);
    FourRecent();
    FirstTwo(100.0, 100.0, [s] + ([u] + []));
    LastTwo([100.0] + [100.0], 170.0, 110.0);
    assert [r] + ([r] + ([s] + ([u] + []))) == [r, r, s, u];
    assert [true] + ([true] + ([true] + ([true] + []))) == [true, true, true, true];
  }

  lemma FourRecent()
    ensures Recent([100.0], 100.0) == [100.0]
    ensures Recent([100.0] + [100.0], 170.0) == []
    ensures Recent([] + [170.0], 110.0) == [170.0]
  {
    RecentAppend([], 100.0, 170.0);
    RecentAppend([100.0], 100.0, 170.0);
    RecentAppend([], 170.0, 110.0);
  }

  lemma FourTimes()
    ensures AcceptedTimes([Request("a", 100.0), Request("a", 100.0), Request("a", 170.0), Request("a", 110.0)],
              [true, true, true, true], "a") == [100.0, 100.0, 170.0, 110.0]
  {
    var r, s, u := Request("a", 100.0), Request("a", 170.0), Request("a", 110.0);
    assert [r, r, s, u][1..] == [r, s, u] && [r, s, u][1..] == [s, u] && [s, u][1..] == [u];
    assert [true, true, true, true][1..] == [true, true, true] && [true, true, true][1..] == [true, true];
    assert [true, true][1..] == [true];
  }

  lemma FourInWindow()
    ensures InWindow([100.0, 100.0, 170.0, 110.0], 110.0) == [100.0, 100.0, 110.0]
  {
    assert [100.0, 100.0, 170.0, 110.0][..3] == [100.0, 100.0, 170.0];
    assert [100.0, 100.0, 170.0][..2] == [100.0, 100.0] && [100.0, 100.0][..1] == [100.0];
  }
}
