/** The local-only path of `cluster_map` (gb_cluster.py): no feeder, so the host runs the
    chunks one after the other and concatenates what it gets. */
module ClusterLocal {
  import opened Basics
  import opened ClusterMap

  /** What run_local answers to each chunk, one after the other. */
  function LocalResults<T, R>(chunks: seq<Chunk<T>>, run: seq<T> -> seq<R>): seq<R> {
    if chunks == [] then [] else run(chunks[0].items) + LocalResults(chunks[1..], run)
  }

  method LocalMap<T, R>(items: seq<T>, size: nat, run: seq<T> -> seq<R>) returns (results: seq<R>)
    requires size >= 1
    ensures results == LocalResults(Chunks(items, size, 0), run)
  {
    results := [];
    var i := 0;
    while i < |items|
      invariant 0 <= i
      invariant results + (if i < |items| then LocalResults(Chunks(items, size, i), run) else [])
                == LocalResults(Chunks(items, size, 0), run)
      decreases |items| - i
    {
      var batch := items[i..Min(i + size, |items|)];
      assert Chunks(items, size, i)[1..] == Chunks(items, size, Min(i + size, |items|));
      results := results + run(batch);
      i := i + size;
    }
  }

  /** run_local answers f of its items, in order, perhaps not for all of them. */
  ghost predicate Honest<T(!new), R(!new)>(f: T -> R, run: seq<T> -> seq<R>) {
    forall batch: seq<T> :: |run(batch)| <= |batch| && Agrees(f, batch, run(batch))
  }

  predicate AllFull<T, R>(chunks: seq<Chunk<T>>, run: seq<T> -> seq<R>) {
    forall k :: 0 <= k < |chunks| ==> |run(chunks[k].items)| == |chunks[k].items|
  }

  lemma AllFullFirst<T, R>(chunks: seq<Chunk<T>>, run: seq<T> -> seq<R>)
    requires chunks != []
    ensures AllFull(chunks, run) <==> |run(chunks[0].items)| == |chunks[0].items| && AllFull(chunks[1..], run)
  {
    var rest := chunks[1..];
    forall k | 0 <= k < |rest| ensures rest[k] == chunks[k + 1] {}
    forall k | 1 <= k < |chunks| ensures chunks[k] == rest[k - 1] {}
  }

  lemma {:induction false} LocalFrom<T(!new), R(!new)>(items: seq<T>, size: nat, idx: nat, f: T -> R,
        run: seq<T> -> seq<R>)
    requires size >= 1 && idx <= |items| && Honest(f, run)
    ensures var chunks := Chunks(items, size, idx);
            && |LocalResults(chunks, run)| <= |items| - idx
            && (|LocalResults(chunks, run)| == |items| - idx <==> AllFull(chunks, run))
            && (AllFull(chunks, run) ==> LocalResults(chunks, run) == MapF(f, items[idx..]))
    decreases |items| - idx
  {
    if idx < |items| {
      var end := Min(idx + size, |items|);
      var batch, chunks := items[idx..end], Chunks(items, size, idx);
      LocalFrom(items, size, end, f, run);
      assert chunks[1..] == Chunks(items, size, end);
      assert Agrees(f, batch, run(batch));
      AllFullFirst(chunks, run);
      if |run(batch)| == |batch| { assert MapF(f, items[idx..]) == run(batch) + MapF(f, items[end..]); }
    }
  }

  /** With an honest host the result is the map of f if and only if no call came up short;
      after a short one the list is shorter, and nothing says so. */
  lemma LocalIsMap<T(!new), R(!new)>(items: seq<T>, size: nat, f: T -> R, run: seq<T> -> seq<R>)
    requires size >= 1 && Honest(f, run)
    ensures LocalResults(Chunks(items, size, 0), run) == MapF(f, items) <==> AllFull(Chunks(items, size, 0), run)
    ensures |LocalResults(Chunks(items, size, 0), run)| == |items| <==> AllFull(Chunks(items, size, 0), run)
  {
    LocalFrom(items, size, 0, f, run);
    assert items[0..] == items;
  }
}
