/** What a clock that steps back does to the limiter of gb_a2a.py: exactly when the pruned
    table still counts what the whole history counts. */
module RateClock {
  import opened RateLimiter

  datatype LogData = LogData(rs: seq<Request>, accepted: seq<bool>)

  /** Requests, and which of them the full history accepts. */
  type Log = w: LogData | |w.accepted| == |w.rs| witness LogData([], [])

  datatype TraceData = TraceData(log: Log, rate: int, limit: nat, tables: seq<Table>)

  /** A run of the limiter on them: its table before each request and at the end. */
  type Trace = x: TraceData | |x.tables| == |x.log.rs| + 1 witness TraceData(LogData([], []), 0, 0, [map[]])

  predicate AcceptedOf(w: Log, client: string, b: nat)
    requires b < |w.rs|
  {
    w.rs[b].client == client && w.accepted[b]
  }

  /** Request e finds the time of request b expired. */
  predicate Expires(w: Log, b: nat, e: nat)
    requires b < |w.rs| && e < |w.rs|
  {
    w.rs[e].now - w.rs[b].now >= WINDOW
  }

  /** A list with one more time, or as it was. */
  function Plus(hits: seq<real>, t: real, more: bool): seq<real> {
    if more then hits + [t] else hits
  }

  /** Every accepted time of a client among the first k requests. */
  function AllOf(w: Log, client: string, k: nat): seq<real>
    requires k <= |w.rs|
  {
    if k == 0 then [] else Plus(AllOf(w, client, k - 1), w.rs[k - 1].now, AcceptedOf(w, client, k - 1))
  }

  /** What request j is compared with the rate, in the full history ... */
  function FullCount(w: Log, j: nat): nat
    requires j < |w.rs|
  {
    |Recent(AllOf(w, w.rs[j].client, j), w.rs[j].now)|
  }

  /** ... and in the limiter. */
  function Count(x: Trace, j: nat): nat
    requires j < |x.log.rs|
  {
    var r := x.log.rs[j];
    |Recent(Of(Prune(x.tables[j], x.limit, r.now), r.client), r.now)|
  }

  ghost predicate IsLog(w: Log, rate: int) {
    forall j :: 0 <= j < |w.rs| ==> (w.accepted[j] <==> FullCount(w, j) < rate)
  }

  ghost predicate IsTrace(x: Trace) {
    && IsLog(x.log, x.rate) && x.tables[0] == map[]
    && forall i :: 0 <= i < |x.log.rs| ==> x.tables[i + 1] == After(x.tables[i], x.rate, x.limit, x.log.rs[i])
  }

  predicate SameCount(x: Trace, j: nat)
    requires j < |x.log.rs|
  {
    Count(x, j) == FullCount(x.log, j)
  }

  ghost predicate SameCounts(x: Trace, n: nat)
    requires n <= |x.log.rs|
  {
    forall j :: 0 <= j < n ==> SameCount(x, j)
  }

  // ---------------------------------------------------------------- what the table holds

  /** Request e makes the limiter drop the time of request b: by its own client's filter, or
      by enforcing the bound while the client's last kept time has expired. */
  predicate Drops(x: Trace, b: nat, e: nat)
    requires b < e < |x.log.rs|
  {
    || (x.log.rs[b].client == x.log.rs[e].client && Expires(x.log, b, e))
    || (|x.tables[e]| > x.limit && Stale(Of(x.tables[e], x.log.rs[b].client), x.log.rs[e].now))
  }

  predicate Gone(x: Trace, b: nat, i: nat)
    requires b < i <= |x.log.rs|
  {
    exists e :: b < e < i && Drops(x, b, e)
  }

  predicate Held(x: Trace, client: string, b: nat, i: nat)
    requires b < i <= |x.log.rs|
  {
    AcceptedOf(x.log, client, b) && !Gone(x, b, i)
  }

  /** The accepted times of a client among the first k requests, less those gone by i. */
  function Kept(x: Trace, client: string, k: nat, i: nat): seq<real>
    requires k <= i <= |x.log.rs|
  {
    if k == 0 then []
    else Plus(Kept(x, client, k - 1, i), x.log.rs[k - 1].now, Held(x, client, k - 1, i))
  }

  /** Kept times after one more request, for a client whose list it prunes, ... */
  lemma {:induction false} KeptPruned(x: Trace, client: string, k: nat, i: nat)
    requires k <= i < |x.log.rs|
    requires |x.tables[i]| > x.limit && Stale(Of(x.tables[i], client), x.log.rs[i].now)
    ensures Kept(x, client, k, i + 1) == []
  {
    if k > 0 {
      KeptPruned(x, client, k - 1, i);
      assert x.log.rs[k - 1].client == client ==> Drops(x, k - 1, i);
    }
  }

  lemma GoneLater(x: Trace, b: nat, i: nat)
    requires b < i < |x.log.rs|
    ensures Gone(x, b, i + 1) <==> Gone(x, b, i) || Drops(x, b, i)
  {
  }

  lemma RecentPlus(hits: seq<real>, t: real, more: bool, now: real)
    ensures Recent(Plus(hits, t, more), now) == Plus(Recent(hits, now), t, more && now - t < WINDOW)
  {
    RecentAppend(hits, t, now);
  }

  lemma HeldLater(x: Trace, client: string, b: nat, i: nat)
    requires b < i < |x.log.rs|
    requires !(|x.tables[i]| > x.limit && Stale(Of(x.tables[i], client), x.log.rs[i].now))
    ensures Held(x, client, b, i + 1)
            <==> Held(x, client, b, i) && !(client == x.log.rs[i].client && Expires(x.log, b, i))
  {
    GoneLater(x, b, i);
  }

  /** ... for the client that makes it, and for any other. */
  lemma {:induction false} KeptStep(x: Trace, client: string, k: nat, i: nat)
    requires k <= i < |x.log.rs|
    requires !(|x.tables[i]| > x.limit && Stale(Of(x.tables[i], client), x.log.rs[i].now))
    ensures Kept(x, client, k, i + 1)
            == if client == x.log.rs[i].client then Recent(Kept(x, client, k, i), x.log.rs[i].now)
               else Kept(x, client, k, i)
  {
    if k > 0 {
      KeptStep(x, client, k - 1, i);
      HeldLater(x, client, k - 1, i);
      var held := Held(x, client, k - 1, i);
      RecentPlus(Kept(x, client, k - 1, i), x.log.rs[k - 1].now, held, x.log.rs[i].now);
    }
  }

  ghost predicate Represents(x: Trace, i: nat)
    requires i <= |x.log.rs|
  {
    forall c: string :: Of(x.tables[i], c) == Kept(x, c, i, i)
  }

  /** What the bound and the filter leave of one client's list. */
  lemma Filtered(x: Trace, i: nat, client: string)
    requires i < |x.log.rs| && Represents(x, i)
    ensures var pruned := Of(Prune(x.tables[i], x.limit, x.log.rs[i].now), client);
            Kept(x, client, i, i + 1)
            == if client == x.log.rs[i].client then Recent(pruned, x.log.rs[i].now) else pruned
  {
    if |x.tables[i]| > x.limit && Stale(Of(x.tables[i], client), x.log.rs[i].now) {
      KeptPruned(x, client, i, i);
    } else {
      KeptStep(x, client, i, i);
    }
  }

  lemma CountIsKept(x: Trace, j: nat)
    requires j < |x.log.rs| && Represents(x, j)
    ensures Count(x, j) == |Kept(x, x.log.rs[j].client, j, j + 1)|
  {
    Filtered(x, j, x.log.rs[j].client);
  }

  lemma RepresentsNext(x: Trace, i: nat)
    requires IsTrace(x) && i < |x.log.rs| && Represents(x, i) && SameCount(x, i)
    ensures Represents(x, i + 1)
  {
    var next := x.tables[i + 1];
    forall c: string ensures Of(next, c) == Kept(x, c, i + 1, i + 1) {
      Filtered(x, i, c);
    }
  }

  lemma TableHoldsNext(x: Trace, i: nat)
    requires IsTrace(x) && i < |x.log.rs| && SameCounts(x, i + 1) && Represents(x, i)
    ensures Represents(x, i + 1)
  {
    assert SameCount(x, i);
    RepresentsNext(x, i);
  }

  lemma TableStarts(x: Trace)
    requires IsTrace(x)
    ensures Represents(x, 0)
  {
  }

  /** As long as the counts agree, the table holds the accepted times that are not gone. */
  lemma {:induction false} TableHolds(x: Trace, i: nat)
    requires IsTrace(x) && i <= |x.log.rs| && SameCounts(x, i)
    ensures Represents(x, i)
  {
    if i == 0 {
      TableStarts(x);
    } else {
      TableHolds(x, i - 1);
      TableHoldsNext(x, i - 1);
    }
  }

  // ---------------------------------------------------------------- the counts

  /** A time in request j's window that the limiter has dropped by then. */
  predicate Missed(x: Trace, b: nat, j: nat)
    requires b < j < |x.log.rs|
  {
    x.log.rs[b].client == x.log.rs[j].client && x.log.accepted[b] && !Expires(x.log, b, j) && Gone(x, b, j + 1)
  }

  ghost predicate NoneMissed(x: Trace, k: nat, j: nat)
    requires k <= j < |x.log.rs|
  {
    forall b :: 0 <= b < k ==> !Missed(x, b, j)
  }

  /** One time: if the filter keeps it and the limiter has not missed it, both have it. */
  lemma HeldInWindow(x: Trace, b: nat, j: nat)
    requires b < j < |x.log.rs|
    ensures var all := AcceptedOf(x.log, x.log.rs[j].client, b) && !Expires(x.log, b, j);
            && (Held(x, x.log.rs[j].client, b, j + 1) ==> all)
            && (Held(x, x.log.rs[j].client, b, j + 1) == all <==> !Missed(x, b, j))
  {
    if x.log.rs[b].client == x.log.rs[j].client && Expires(x.log, b, j) { assert Drops(x, b, j); }
  }

  /** The times in request j's window that the limiter keeps, and all of them. */
  function KeptCount(x: Trace, k: nat, j: nat): nat
    requires k <= j < |x.log.rs|
  {
    |Kept(x, x.log.rs[j].client, k, j + 1)|
  }

  function AllCount(w: Log, k: nat, j: nat): nat
    requires k <= j < |w.rs|
  {
    |Recent(AllOf(w, w.rs[j].client, k), w.rs[j].now)|
  }

  lemma CountStep(x: Trace, b: nat, j: nat)
    requires b < j < |x.log.rs|
    ensures var kept := KeptCount(x, b + 1, j) - KeptCount(x, b, j);
            var all := AllCount(x.log, b + 1, j) - AllCount(x.log, b, j);
            0 <= kept <= all && (kept == all <==> !Missed(x, b, j))
  {
    HeldInWindow(x, b, j);
    var w, client := x.log, x.log.rs[j].client;
    RecentPlus(AllOf(w, client, b), w.rs[b].now, AcceptedOf(w, client, b), w.rs[j].now);
  }

  /** The kept times in request j's window are all of them but the missed ones. */
  ghost predicate DifferByMissed(x: Trace, k: nat, j: nat)
    requires k <= j < |x.log.rs|
  {
    && KeptCount(x, k, j) <= AllCount(x.log, k, j)
    && (KeptCount(x, k, j) == AllCount(x.log, k, j) <==> NoneMissed(x, k, j))
  }

  lemma CountsDifferNext(x: Trace, k: nat, j: nat)
    requires k < j < |x.log.rs| && DifferByMissed(x, k, j)
    ensures DifferByMissed(x, k + 1, j)
  {
    CountStep(x, k, j);
    assert NoneMissed(x, k + 1, j) <==> NoneMissed(x, k, j) && !Missed(x, k, j);
  }

  lemma {:induction false} CountsDiffer(x: Trace, k: nat, j: nat)
    requires k <= j < |x.log.rs|
    ensures DifferByMissed(x, k, j)
  {
    if k == 0 {
      assert NoneMissed(x, 0, j);
    } else {
      CountsDiffer(x, k - 1, j);
      CountsDifferNext(x, k - 1, j);
    }
  }

  lemma CountIff(x: Trace, j: nat)
    requires IsTrace(x) && j < |x.log.rs| && SameCounts(x, j)
    ensures SameCount(x, j) <==> NoneMissed(x, j, j)
  {
    TableHolds(x, j);
    CountIsKept(x, j);
    CountsDiffer(x, j, j);
  }

  /** No time that the limiter drops is in the window of that request or a later one of its
      client. */
  ghost predicate NothingMissed(x: Trace, n: nat)
    requires n <= |x.log.rs|
  {
    forall j :: 0 <= j < n ==> NoneMissed(x, j, j)
  }

  lemma SplitLast(x: Trace, n: nat)
    requires n < |x.log.rs|
    ensures SameCounts(x, n + 1) <==> SameCounts(x, n) && SameCount(x, n)
    ensures NothingMissed(x, n + 1) <==> NothingMissed(x, n) && NoneMissed(x, n, n)
  {
  }

  lemma CountsIffNext(x: Trace, n: nat)
    requires IsTrace(x) && n < |x.log.rs| && (SameCounts(x, n) <==> NothingMissed(x, n))
    ensures SameCounts(x, n + 1) <==> NothingMissed(x, n + 1)
  {
    SplitLast(x, n);
    if SameCounts(x, n) { CountIff(x, n); }
  }

  /** For a fixed bound on the table, 1024 in the code: the limiter counts what the full
      history counts at every request, if and only if no time it drops comes back. */
  lemma {:induction false} CountsIff(x: Trace, n: nat)
    requires IsTrace(x) && n <= |x.log.rs|
    ensures SameCounts(x, n) <==> NothingMissed(x, n)
  {
    if n == 0 {
      assert SameCounts(x, 0) && NothingMissed(x, 0);
    } else {
      CountsIff(x, n - 1);
      CountsIffNext(x, n - 1);
    }
  }

  // ---------------------------------------------------------------- few clients

  ghost function Clients(w: Log, n: nat): set<string>
    requires n <= |w.rs|
  {
    set k | 0 <= k < n :: w.rs[k].client
  }

  lemma {:induction false} TableKeys(x: Trace, i: nat)
    requires IsTrace(x) && i <= |x.log.rs|
    ensures x.tables[i].Keys <= Clients(x.log, i)
  {
    if i > 0 {
      TableKeys(x, i - 1);
      assert x.log.rs[i - 1].client in Clients(x.log, i);
      assert Clients(x.log, i - 1) <= Clients(x.log, i);
    }
  }

  lemma {:induction false} SubsetSize<T>(a: set<T>, b: set<T>)
    requires a <= b
    ensures |a| <= |b|
  {
    if a != {} {
      var x :| x in a;
      SubsetSize(a - {x}, b - {x});
    }
  }

  lemma TableIsSmall(x: Trace, i: nat)
    requires IsTrace(x) && i <= |x.log.rs| && |Clients(x.log, |x.log.rs|)| <= x.limit
    ensures |x.tables[i]| <= x.limit
  {
    TableKeys(x, i);
    SubsetSize(x.tables[i].Keys, Clients(x.log, |x.log.rs|));
  }

  /** The clock steps back over an accepted time: request e of the client sees it expired, and
      request j, later, is within 60 seconds of it. */
  predicate Returns(w: Log, b: nat, e: nat, j: nat)
    requires b < e < j < |w.rs|
  {
    && w.rs[b].client == w.rs[e].client == w.rs[j].client
    && w.accepted[b] && Expires(w, b, e) && !Expires(w, b, j)
  }

  ghost predicate NeverReturns(w: Log) {
    forall b, e, j :: 0 <= b < e < j < |w.rs| ==> !Returns(w, b, e, j)
  }

  lemma MissedReturns(x: Trace, b: nat, j: nat)
    requires IsTrace(x) && b < j < |x.log.rs| && |Clients(x.log, |x.log.rs|)| <= x.limit
    ensures Missed(x, b, j) <==> exists e :: b < e < j && Returns(x.log, b, e, j)
  {
    if Missed(x, b, j) {
      var e :| b < e < j + 1 && Drops(x, b, e);
      TableIsSmall(x, e);
      assert Returns(x.log, b, e, j);
    } else if e :| b < e < j && Returns(x.log, b, e, j) {
      assert Drops(x, b, e);
    }
  }

  /** With no more clients than the bound, exactly when the limiter counts what the full
      history counts: the clock never steps back over an accepted time. */
  lemma FewClientsIff(x: Trace)
    requires IsTrace(x) && |Clients(x.log, |x.log.rs|)| <= x.limit
    ensures SameCounts(x, |x.log.rs|) <==> NeverReturns(x.log)
  {
    CountsIff(x, |x.log.rs|);
    if NothingMissed(x, |x.log.rs|) {
      forall b, e, j | 0 <= b < e < j < |x.log.rs| ensures !Returns(x.log, b, e, j) {
        assert NoneMissed(x, j, j);
        MissedReturns(x, b, j);
      }
    }
    if NeverReturns(x.log) {
      forall j | 0 <= j < |x.log.rs| ensures NoneMissed(x, j, j) {
        forall b | 0 <= b < j ensures !Missed(x, b, j) { MissedReturns(x, b, j); }
      }
    }
  }

  // ---------------------------------------------------------------- whatever the bound

  /** Request a is the client's last accepted one before request e. */
  ghost predicate LastBefore(w: Log, client: string, a: nat, e: nat)
    requires a < e <= |w.rs|
  {
    AcceptedOf(w, client, a) && forall k :: a < k < e ==> !AcceptedOf(w, client, k)
  }

  /** Request e sees the time of request b expired, or finds that the last accepted time of
      that client has, so that enforcing a bound may drop the whole list. */
  ghost predicate Forgets(w: Log, b: nat, e: nat)
    requires b < e < |w.rs|
  {
    || (w.rs[b].client == w.rs[e].client && Expires(w, b, e))
    || exists a :: b <= a < e && LastBefore(w, w.rs[b].client, a, e) && Expires(w, a, e)
  }

  ghost predicate Forgotten(w: Log, b: nat, i: nat)
    requires b < i <= |w.rs|
  {
    exists e :: b < e < i && Forgets(w, b, e)
  }

  /** No accepted time that may be forgotten is in the window of a later request of its
      client. */
  ghost predicate NeverForgets(w: Log) {
    forall b, j | 0 <= b < j < |w.rs| && w.rs[b].client == w.rs[j].client && w.accepted[b]
                  && Forgotten(w, b, j + 1) :: Expires(w, b, j)
  }

  lemma {:induction false} KeptLast(x: Trace, client: string, k: nat, i: nat) returns (last: nat)
    requires k <= i <= |x.log.rs| && Kept(x, client, k, i) != []
    ensures last < k && Held(x, client, last, i)
    ensures var kept := Kept(x, client, k, i); kept[|kept| - 1] == x.log.rs[last].now
    ensures forall y :: last < y < k ==> !Held(x, client, y, i)
  {
    if Held(x, client, k - 1, i) { last := k - 1; } else { last := KeptLast(x, client, k - 1, i); }
  }

  lemma {:induction false} HeldIsKept(x: Trace, client: string, b: nat, k: nat, i: nat)
    requires b < k <= i <= |x.log.rs| && Held(x, client, b, i)
    ensures Kept(x, client, k, i) != []
  {
    if b < k - 1 { HeldIsKept(x, client, b, k - 1, i); }
  }

  lemma {:induction false} FirstDrop(x: Trace, b: nat, i: nat) returns (e: nat)
    requires b < i <= |x.log.rs| && Gone(x, b, i)
    ensures b < e < i && Drops(x, b, e) && !Gone(x, b, e)
  {
    e := i - 1;
    GoneLater(x, b, i - 1);
    if Gone(x, b, i - 1) { e := FirstDrop(x, b, i - 1); }
  }

  lemma {:induction false} FindLast(w: Log, client: string, b: nat, e: nat) returns (a: nat)
    requires b < e <= |w.rs| && AcceptedOf(w, client, b)
    ensures b <= a < e && LastBefore(w, client, a, e)
  {
    a := e - 1;
    if !AcceptedOf(w, client, e - 1) { a := FindLast(w, client, b, e - 1); }
  }

  lemma LastOfKept(x: Trace, client: string, a: nat, e: nat)
    requires a < e < |x.log.rs| && LastBefore(x.log, client, a, e) && !Gone(x, a, e)
    ensures var hits := Kept(x, client, e, e); hits != [] && hits[|hits| - 1] == x.log.rs[a].now
  {
    assert Held(x, client, a, e);
    HeldIsKept(x, client, a, e, e);
    var last := KeptLast(x, client, e, e);
  }

  /** A client's list when it still holds its last accepted time. */
  lemma LastHeld(x: Trace, client: string, a: nat, e: nat)
    requires IsTrace(x) && a < e < |x.log.rs| && SameCounts(x, e) && LastBefore(x.log, client, a, e) && !Gone(x, a, e)
    ensures var hits := Of(x.tables[e], client); hits != [] && hits[|hits| - 1] == x.log.rs[a].now
  {
    TableHolds(x, e);
    LastOfKept(x, client, a, e);
  }

  /** The last accepted time is only dropped once it has expired. */
  lemma LastDropped(x: Trace, client: string, a: nat, e: nat)
    requires IsTrace(x) && a < e < |x.log.rs| && SameCounts(x, e) && LastBefore(x.log, client, a, e)
    requires Drops(x, a, e) && !Gone(x, a, e)
    ensures Expires(x.log, a, e)
  {
    LastHeld(x, client, a, e);
  }

  lemma LastBeforeEarlier(w: Log, client: string, a: nat, e: nat, i: nat)
    requires a < e <= i <= |w.rs| && LastBefore(w, client, a, i)
    ensures LastBefore(w, client, a, e)
  {
  }

  /** A client's list whose last kept time has expired was forgotten already, or is now. */
  lemma StaleIsForgotten(x: Trace, client: string, last: nat, e: nat)
    requires IsTrace(x) && last < e < |x.log.rs| && SameCounts(x, e)
    requires Held(x, client, last, e) && Expires(x.log, last, e)
    requires forall y :: last < y < e ==> !Held(x, client, y, e)
    ensures exists a, f :: last <= a < f <= e && LastBefore(x.log, client, a, f) && Expires(x.log, a, f)
  {
    var a := FindLast(x.log, client, last, e);
    if a != last {
      assert !Held(x, client, a, e);
      var f := FirstDrop(x, a, e);
      LastBeforeEarlier(x.log, client, a, f, e);
      LastDropped(x, client, a, f);
    }
  }

  /** Whatever the bound, a dropped time is one that may be forgotten. */
  lemma GoneIsForgotten(x: Trace, b: nat, i: nat)
    requires IsTrace(x) && b < i <= |x.log.rs| && SameCounts(x, i - 1) && x.log.accepted[b] && Gone(x, b, i)
    ensures Forgotten(x.log, b, i)
  {
    var client := x.log.rs[b].client;
    var e := FirstDrop(x, b, i);
    if client == x.log.rs[e].client && Expires(x.log, b, e) {
      assert Forgets(x.log, b, e);
    } else {
      TableHolds(x, e);
      assert Held(x, client, b, e);
      HeldIsKept(x, client, b, e, e);
      var last := KeptLast(x, client, e, e);
      StaleIsForgotten(x, client, last, e);
      var a, f :| last <= a < f <= e && LastBefore(x.log, client, a, f) && Expires(x.log, a, f);
      assert Forgets(x.log, b, f);
    }
  }

  /** With a bound of 0 every time that may be forgotten is dropped. */
  lemma ForgottenIsGone(x: Trace, b: nat, e: nat)
    requires IsTrace(x) && x.limit == 0 && b < e < |x.log.rs| && SameCounts(x, e)
    requires x.log.accepted[b] && Forgets(x.log, b, e)
    ensures Gone(x, b, e + 1)
  {
    var client := x.log.rs[b].client;
    if x.log.rs[e].client == client && Expires(x.log, b, e) {
      assert Drops(x, b, e);
    } else {
      var a :| b <= a < e && LastBefore(x.log, client, a, e) && Expires(x.log, a, e);
      if Gone(x, a, e) {
        var f := FirstDrop(x, a, e);
        LastBeforeEarlier(x.log, client, a, f, e);
        LastDropped(x, client, a, f);
        LastHeld(x, client, a, f);
        DropsAll(x, client, a, b, f);
      } else {
        LastHeld(x, client, a, e);
        DropsAll(x, client, a, b, e);
      }
    }
  }

  lemma DropsAll(x: Trace, client: string, a: nat, b: nat, e: nat)
    requires x.limit == 0 && b <= a < e < |x.log.rs| && x.log.rs[b].client == client && Expires(x.log, a, e)
    requires var hits := Of(x.tables[e], client); hits != [] && hits[|hits| - 1] == x.log.rs[a].now
    ensures Drops(x, b, e)
  {
    assert client in x.tables[e].Keys;
  }

  lemma NeverMissed(x: Trace, b: nat, j: nat)
    requires IsTrace(x) && b < j < |x.log.rs| && NeverForgets(x.log) && SameCounts(x, j)
    ensures !Missed(x, b, j)
  {
    if Missed(x, b, j) { GoneIsForgotten(x, b, j + 1); }
  }

  lemma {:induction false} NeverForgetsCounts(x: Trace, n: nat)
    requires IsTrace(x) && n <= |x.log.rs| && NeverForgets(x.log)
    ensures SameCounts(x, n)
  {
    if n > 0 {
      var j := n - 1;
      NeverForgetsCounts(x, j);
      SplitLast(x, j);
      forall b | 0 <= b < j ensures !Missed(x, b, j) { NeverMissed(x, b, j); }
      CountIff(x, j);
    }
  }

  lemma CountsNeverForget(x: Trace)
    requires IsTrace(x) && x.limit == 0 && SameCounts(x, |x.log.rs|)
    ensures NeverForgets(x.log)
  {
    var w := x.log;
    CountsIff(x, |w.rs|);
    forall b, j | 0 <= b < j < |w.rs| && w.rs[b].client == w.rs[j].client && w.accepted[b] && Forgotten(w, b, j + 1)
      ensures Expires(w, b, j)
    {
      assert NoneMissed(x, j, j) && !Missed(x, b, j);
      var e :| b < e < j + 1 && Forgets(w, b, e);
      ForgottenIsGone(x, b, e);
      var f :| b < f < e + 1 && Drops(x, b, f);
    }
  }

  /** A clock that never steps back never forgets. */
  lemma OrderedNeverForgets(w: Log)
    requires forall i, j :: 0 <= i < j < |w.rs| ==> w.rs[i].now <= w.rs[j].now
    ensures NeverForgets(w) && NeverReturns(w)
  {
  }

  // ---------------------------------------------------------------- the traces of the code

  /** The limiter's tables on its way through the requests. */
  function Tables(table: Table, rate: int, limit: nat, rs: seq<Request>): (r: seq<Table>)
    ensures |r| == |rs| + 1 && r[0] == table
    decreases |rs|
  {
    [table] + if rs == [] then [] else Tables(After(table, rate, limit, rs[0]), rate, limit, rs[1..])
  }

  lemma {:induction false} TablesStep(table: Table, rate: int, limit: nat, rs: seq<Request>, i: nat)
    requires i < |rs|
    ensures var ts := Tables(table, rate, limit, rs); ts[i + 1] == After(ts[i], rate, limit, rs[i])
    decreases |rs|
  {
    var next := After(table, rate, limit, rs[0]);
    assert Tables(table, rate, limit, rs)[1..] == Tables(next, rate, limit, rs[1..]);
    if i > 0 { TablesStep(next, rate, limit, rs[1..], i - 1); }
  }

  lemma {:induction false} AnswersLength(table: Table, rate: int, limit: nat, rs: seq<Request>)
    ensures |Answers(table, rate, limit, rs)| == |rs|
    decreases |rs|
  {
    if rs != [] { AnswersLength(After(table, rate, limit, rs[0]), rate, limit, rs[1..]); }
  }

  lemma {:induction false} AnswersAt(table: Table, rate: int, limit: nat, rs: seq<Request>, i: nat)
    requires i < |rs| && |Answers(table, rate, limit, rs)| == |rs|
    ensures Answers(table, rate, limit, rs)[i] == Accepts(Tables(table, rate, limit, rs)[i], rate, limit, rs[i])
    decreases |rs|
  {
    if i > 0 {
      var next := After(table, rate, limit, rs[0]);
      AnswersLength(next, rate, limit, rs[1..]);
      AnswersAt(next, rate, limit, rs[1..], i - 1);
      OneLater(table, next, rate, limit, rs, i);
    }
  }

  lemma OneLater(table: Table, next: Table, rate: int, limit: nat, rs: seq<Request>, i: nat)
    requires 0 < i < |rs| && next == After(table, rate, limit, rs[0])
    requires |Answers(table, rate, limit, rs)| == |rs| && |Answers(next, rate, limit, rs[1..])| == |rs| - 1
    ensures Answers(table, rate, limit, rs)[i] == Answers(next, rate, limit, rs[1..])[i - 1]
    ensures Tables(table, rate, limit, rs)[i] == Tables(next, rate, limit, rs[1..])[i - 1]
  {
  }

  /** The full history's answers to the requests. */
  function LogOf(rate: int, rs: seq<Request>): Log {
    FullAnswersLength(map[], rate, rs);
    LogData(rs, FullAnswers(map[], rate, rs))
  }

  function TraceOf(rate: int, limit: nat, rs: seq<Request>): Trace {
    TraceData(LogOf(rate, rs), rate, limit, Tables(map[], rate, limit, rs))
  }

  lemma FullStep(history: Table, r: Request, ok: bool, client: string)
    ensures Of(Full(history, r, ok), client) == Plus(Of(history, client), r.now, ok && r.client == client)
  {
  }

  /** A history that holds the accepted times of the first i requests answers the rest. */
  lemma {:induction false} LogFrom(w: Log, rate: int, history: Table, i: nat)
    requires i <= |w.rs| && FullAnswers(history, rate, w.rs[i..]) == w.accepted[i..]
    requires forall c: string :: Of(history, c) == AllOf(w, c, i)
    ensures forall j :: i <= j < |w.rs| ==> (w.accepted[j] <==> FullCount(w, j) < rate)
    decreases |w.rs| - i
  {
    if i < |w.rs| {
      var r, ok := w.rs[i], w.accepted[i];
      var next := Full(history, r, ok);
      assert w.rs[i..][0] == r && w.rs[i..][1..] == w.rs[i + 1..];
      assert w.accepted[i..][0] == ok && w.accepted[i..][1..] == w.accepted[i + 1..];
      assert ok <==> FullCount(w, i) < rate;
      forall c: string ensures Of(next, c) == AllOf(w, c, i + 1) { FullStep(history, r, ok, c); }
      LogFrom(w, rate, next, i + 1);
    }
  }

  lemma TraceOfIsTrace(rate: int, limit: nat, rs: seq<Request>)
    ensures IsTrace(TraceOf(rate, limit, rs))
  {
    var x := TraceOf(rate, limit, rs);
    assert rs[0..] == rs && x.log.accepted[0..] == x.log.accepted;
    LogFrom(x.log, rate, map[], 0);
    forall i | 0 <= i < |rs| ensures x.tables[i + 1] == After(x.tables[i], rate, limit, rs[i]) {
      TablesStep(map[], rate, limit, rs, i);
    }
  }

  /** The exact condition on the requests: whatever the bound on the table, the limiter counts
      what the full history counts at every request, if and only if no accepted time that may
      be forgotten is in the window of a later request. */
  lemma EveryBoundIff(rate: int, rs: seq<Request>)
    ensures (forall limit: nat :: SameCounts(TraceOf(rate, limit, rs), |rs|)) <==> NeverForgets(LogOf(rate, rs))
  {
    if NeverForgets(LogOf(rate, rs)) {
      forall limit: nat ensures SameCounts(TraceOf(rate, limit, rs), |rs|) {
        TraceOfIsTrace(rate, limit, rs);
        NeverForgetsCounts(TraceOf(rate, limit, rs), |rs|);
      }
    }
    if forall limit: nat :: SameCounts(TraceOf(rate, limit, rs), |rs|) {
      TraceOfIsTrace(rate, 0, rs);
      CountsNeverForget(TraceOf(rate, 0, rs));
    }
  }

  lemma SameCountsSameAnswers(rate: int, limit: nat, rs: seq<Request>)
    requires SameCounts(TraceOf(rate, limit, rs), |rs|)
    ensures Answers(map[], rate, limit, rs) == FullAnswers(map[], rate, rs)
  {
    var x := TraceOf(rate, limit, rs);
    TraceOfIsTrace(rate, limit, rs);
    AnswersLength(map[], rate, limit, rs);
    forall k | 0 <= k < |rs| ensures Answers(map[], rate, limit, rs)[k] == x.log.accepted[k] {
      AnswersAt(map[], rate, limit, rs, k);
      assert SameCount(x, k);
    }
  }

  /** So on every run that meets the condition, ordered or not, the limiter answers as if it
      forgot nothing, and no window (t - 60, t] holds more accepted requests than the rate. */
  lemma NeverForgetsAnswers(rate: int, limit: nat, rs: seq<Request>, client: string, t: real)
    requires rate >= 0 && NeverForgets(LogOf(rate, rs))
    ensures Answers(map[], rate, limit, rs) == FullAnswers(map[], rate, rs)
    ensures |Answers(map[], rate, limit, rs)| == |rs|
    ensures |InWindow(AcceptedTimes(rs, Answers(map[], rate, limit, rs), client), t)| <= rate
  {
    EveryBoundIff(rate, rs);
    SameCountsSameAnswers(rate, limit, rs);
    SameAnswersBound(rate, limit, rs, client, t);
  }

  // ---------------------------------------------------------------- the limit, by the requests

  /** The accepted requests of a client among the first k whose times are less than 60 seconds
      before `now`, or after it. */
  ghost function AcceptedWithin(rs: seq<Request>, answers: seq<bool>, client: string, k: nat, now: real): set<nat>
    requires k <= |rs| == |answers|
  {
    set b: nat | b < k && answers[b] && rs[b].client == client && now - rs[b].now < 60.0
  }

  lemma WithinNext(rs: seq<Request>, answers: seq<bool>, client: string, k: nat, now: real)
    requires k < |rs| == |answers|
    ensures |AcceptedWithin(rs, answers, client, k + 1, now)|
            == |AcceptedWithin(rs, answers, client, k, now)|
               + if answers[k] && rs[k].client == client && now - rs[k].now < 60.0 then 1 else 0
  {
    var before := AcceptedWithin(rs, answers, client, k, now);
    assert AcceptedWithin(rs, answers, client, k + 1, now)
        == before + if answers[k] && rs[k].client == client && now - rs[k].now < 60.0 then {k} else {};
  }

  lemma AllNext(w: Log, client: string, k: nat, now: real)
    requires k < |w.rs|
    ensures |Recent(AllOf(w, client, k + 1), now)|
            == |Recent(AllOf(w, client, k), now)|
               + if w.accepted[k] && w.rs[k].client == client && now - w.rs[k].now < 60.0 then 1 else 0
  {
    RecentPlus(AllOf(w, client, k), w.rs[k].now, AcceptedOf(w, client, k), now);
  }

  lemma {:induction false} CountIsSize(w: Log, client: string, k: nat, now: real)
    requires k <= |w.rs|
    ensures |Recent(AllOf(w, client, k), now)| == |AcceptedWithin(w.rs, w.accepted, client, k, now)|
  {
    if k == 0 {
      assert AcceptedWithin(w.rs, w.accepted, client, k, now) == {};
    } else {
      CountIsSize(w, client, k - 1, now);
      AllNext(w, client, k - 1, now);
      WithinNext(w.rs, w.accepted, client, k - 1, now);
    }
  }

  /** On such a run a request is accepted if and only if fewer than `rate` of the requests that
      the limiter has accepted from its client are less than 60 seconds old. */
  lemma AcceptedIff(rate: int, limit: nat, rs: seq<Request>, j: nat)
    requires NeverForgets(LogOf(rate, rs)) && j < |rs|
    ensures |Answers(map[], rate, limit, rs)| == |rs|
    ensures var answers := Answers(map[], rate, limit, rs);
            answers[j] <==>
            |set b: nat | b < j && answers[b] && rs[b].client == rs[j].client && rs[j].now - rs[b].now < 60.0| < rate
  {
    EveryBoundIff(rate, rs);
    SameCountsSameAnswers(rate, limit, rs);
    AnswersLength(map[], rate, limit, rs);
    TraceOfIsTrace(rate, limit, rs);
    LogAcceptsIff(LogOf(rate, rs), rate, j);
  }

  lemma LogAcceptsIff(w: Log, rate: int, j: nat)
    requires IsLog(w, rate) && j < |w.rs|
    ensures w.accepted[j] <==>
      |set b: nat | b < j && w.accepted[b] && w.rs[b].client == w.rs[j].client
                    && w.rs[j].now - w.rs[b].now < 60.0| < rate
  {
    CountIsSize(w, w.rs[j].client, j, w.rs[j].now);
    assert AcceptedWithin(w.rs, w.accepted, w.rs[j].client, j, w.rs[j].now)
        == set b: nat | b < j && w.accepted[b] && w.rs[b].client == w.rs[j].client && w.rs[j].now - w.rs[b].now < 60.0;
  }
}
