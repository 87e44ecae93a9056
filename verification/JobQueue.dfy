/** `ClusterJobQueue` (gb_cluster.py): jobs are submitted one at a time, a host thread and
    one thread per feeder take them from a FIFO, and `close` sends every thread a sentinel.

    As for `cluster_map`, the threads are a state machine over atomic actions: one queue
    `get`, one queue `put`, one change of a future, one `join`. */
module JobQueue {

  datatype Outcome<+R> = Value(value: R) | Raised(error: string)

  /** A future: cancelled by its owner, and then either still queued or seen by a worker. */
  datatype Status<+R> = Pending | Cancelled | Notified | Claimed | Resolved(outcome: Outcome<R>)

  datatype Entry = Job(id: nat) | Sentinel

  datatype Thread =
    | Getting            // in q.get()
    | Holding(id: nat)   // about to call set_running_or_notify_cancel
    | Running(id: nat)   // the host in run_local, a feeder in run_remote
    | Retrying(id: nat)  // a feeder in run_local, after run_remote raised
    | Dead

  /** The client thread, in `close` or not. */
  datatype Client = Open | Putting(left: nat, wait: bool) | Joining(next: nat) | Returned(waited: bool)

  /** What the two callables may answer for an item; `remote` lists only the values, it may
      always raise. */
  datatype Config<!T, !R> = Config(local: (T, Outcome<R>) -> bool, remote: (T, R) -> bool, feeders: nat)

  /** Job k is `items[k]` with future `futures[k]`; thread 0 is the host's. */
  datatype State<+T, +R> = State(
    queue: seq<Entry>, items: seq<T>, futures: seq<Status<R>>, threads: seq<Thread>, closed: bool, client: Client)

  datatype Step<+T, +R> =
    | Submit(item: T)
    | Cancel(id: nat)
    | Close(wait: bool)
    | PutSentinel
    | Join
    | Get(w: nat)
    | Claim(w: nat)
    | Finish(w: nat, outcome: Outcome<R>)   // host: run_local is over; feeder: run_remote returned
    | RemoteFail(w: nat)                    // feeder: run_remote raised
    | Retried(w: nat, outcome: Outcome<R>)  // feeder: the local retry is over

  function Init<T, R>(c: Config<T, R>): State<T, R> {
    State([], [], [], seq(c.feeders + 1, w requires 0 <= w < c.feeders + 1 => Getting), false, Open)
  }

  /** Only a client that is not inside `close` calls `submit` or `close`. */
  predicate AtCall(client: Client) {
    client.Open? || client.Returned?
  }

  predicate Enabled<T, R>(c: Config<T, R>, s: State<T, R>, step: Step<T, R>) {
    match step
    case Submit(item) => AtCall(s.client)
    case Cancel(id) => id < |s.futures|
    case Close(wait) => AtCall(s.client)
    case PutSentinel => s.client.Putting?
    case Join => s.client.Joining? && (s.client.next < |s.threads| ==> s.threads[s.client.next].Dead?)
    case Get(w) => w < |s.threads| && s.threads[w].Getting? && s.queue != []
    case Claim(w) => w < |s.threads| && s.threads[w].Holding? && s.threads[w].id < |s.futures|
    case Finish(w, outcome) =>
      && w < |s.threads| && s.threads[w].Running? && s.threads[w].id < |s.futures| == |s.items|
      && var item := s.items[s.threads[w].id];
      if w == 0 then c.local(item, outcome) else outcome.Value? && c.remote(item, outcome.value)
    case RemoteFail(w) => 0 < w < |s.threads| && s.threads[w].Running?
    case Retried(w, outcome) =>
      && w < |s.threads| && s.threads[w].Retrying? && s.threads[w].id < |s.futures| == |s.items|
      && c.local(s.items[s.threads[w].id], outcome)
  }

  function Apply<T, R>(c: Config<T, R>, s: State<T, R>, step: Step<T, R>): State<T, R>
    requires Enabled(c, s, step)
  {
    match step
    case Submit(item) =>
      if s.closed then s // RuntimeError
      else s.(queue := s.queue + [Job(|s.futures|)], items := s.items + [item], futures := s.futures + [Pending])
    case Cancel(id) => if s.futures[id].Pending? then s.(futures := s.futures[id := Cancelled]) else s
    case Close(wait) => if s.closed then s else s.(closed := true, client := Putting(|s.threads|, wait))
    case PutSentinel =>
      if s.client.left > 0
      then s.(queue := s.queue + [Sentinel], client := Putting(s.client.left - 1, s.client.wait))
      else s.(client := if s.client.wait then Joining(0) else Returned(false))
    case Join => s.(client := if s.client.next < |s.threads| then Joining(s.client.next + 1) else Returned(true))
    case Get(w) =>
      s.(queue := s.queue[1..],
         threads := s.threads[w := if s.queue[0].Sentinel? then Dead else Holding(s.queue[0].id)])
    case Claim(w) =>
      var id := s.threads[w].id;
      if s.futures[id].Pending? then s.(futures := s.futures[id := Claimed], threads := s.threads[w := Running(id)])
      else if s.futures[id].Cancelled? then s.(futures := s.futures[id := Notified], threads := s.threads[w := Getting])
      else s.(threads := s.threads[w := Dead]) // InvalidStateError kills the thread
    case Finish(w, outcome) =>
      s.(futures := s.futures[s.threads[w].id := Resolved(outcome)], threads := s.threads[w := Getting])
    case RemoteFail(w) => s.(threads := s.threads[w := Retrying(s.threads[w].id)])
    case Retried(w, outcome) =>
      s.(futures := s.futures[s.threads[w].id := Resolved(outcome)], threads := s.threads[w := Dead])
  }

  predicate Run<T(==), R(==)>(c: Config<T, R>, s: State<T, R>, steps: seq<Step<T, R>>, t: State<T, R>)
    decreases |steps|
  {
    if steps == [] then s == t
    else Enabled(c, s, steps[0]) && Run(c, Apply(c, s, steps[0]), steps[1..], t)
  }

  predicate Reaches<T(==), R(==)>(c: Config<T, R>, steps: seq<Step<T, R>>, t: State<T, R>) {
    Run(c, Init(c), steps, t)
  }

  /** An answer the caller may get for an item: whatever run_local did with it, or a value
      that run_remote returned. */
  predicate Legitimate<T, R>(c: Config<T, R>, item: T, outcome: Outcome<R>) {
    c.local(item, outcome) || (outcome.Value? && c.remote(item, outcome.value))
  }
}
