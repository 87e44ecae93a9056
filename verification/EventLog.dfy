/** Appending, rotating and compacting the event log (`emit`, `_rotate_log` and
    `compact_archive` in gb_dataflux.py).

    File contents are byte sequences; the archive is modelled by what gzip gives back on
    reading it, so appending a gzip member appends bytes.  One writer, and file
    operations that succeed. */
module EventLog {
  import opened Basics
  import opened SeekReader

  /** A written record: its bytes and the newline. */
  function Written(line: Line): seq<byte> {
    line + [NL]
  }

  function WrittenAll(lines: seq<Line>): seq<byte> {
    if lines == [] then [] else Written(lines[0]) + WrittenAll(lines[1..])
  }

  predicate OneLine(line: Line) {
    NL !in line
  }

  /** The two files of a log. */
  datatype Files = Files(archive: seq<byte>, live: seq<byte>)

  /** One emit: the record goes to the live log, which moves to the archive when it
      exceeds the cap. */
  function Emitted(a: Files, line: Line, cap: nat): Files {
    var live := a.live + Written(line);
    if |live| > cap then Files(a.archive + live, []) else Files(a.archive, live)
  }

  function EmittedAll(a: Files, lines: seq<Line>, caps: seq<nat>): Files
    requires |lines| == |caps|
    decreases |lines|
  {
    if lines == [] then a else EmittedAll(Emitted(a, lines[0], caps[0]), lines[1..], caps[1..])
  }

  class Log {
    var live: seq<byte>      // dataflux.jsonl; empty when the file is absent
    var archive: seq<byte>   // dataflux.jsonl.1.gz, decompressed

    constructor ()
      ensures live == [] && archive == []
    {
      live, archive := [], [];
    }

    /** `emit`: append, then rotate once the file is over the cap.  An event that does not
        serialise is swallowed.  The cap follows the free space, so each call brings its own. */
    method Emit(event: Option<Line>, cap: nat, chunk: nat)
      requires chunk >= 1
      modifies this
      ensures Files(archive, live) == match event
        case None => old(Files(archive, live))
        case Some(line) => Emitted(old(Files(archive, live)), line, cap)
    {
      if event.Some? {
        live := live + Written(event.value);
        if |live| > cap { Rotate(chunk); }
      }
    }

    /** `_rotate_log`: copy the log into the archive chunk by chunk, then unlink it. */
    method Rotate(chunk: nat)
      requires chunk >= 1
      modifies this
      ensures archive == old(archive) + old(live) && live == []
    {
      var pos := 0;
      while pos < |live|
        invariant 0 <= pos <= |live| && live == old(live)
        invariant archive == old(archive) + live[..pos]
      {
        var end := if pos + chunk <= |live| then pos + chunk else |live|;
        assert live[..end] == live[..pos] + live[pos..end];
        archive := archive + live[pos..end];
        pos := end;
      }
      assert live[..pos] == live;
      live := [];
    }
  }

  // ---------------------------------------------------------------- conservation over runs

  /** The archive ends where a record ends. */
  ghost predicate AtRecordEnd(bytes: seq<byte>) {
    bytes == [] || bytes[|bytes| - 1] == NL
  }

  lemma EmitConserves(a: Files, line: Line, cap: nat)
    ensures var b := Emitted(a, line, cap);
            && b.archive + b.live == a.archive + a.live + Written(line)
            && |b.live| <= cap
            && (b.archive == a.archive <==> |a.live| + |line| + 1 <= cap)
            && (AtRecordEnd(a.archive) ==> AtRecordEnd(b.archive))
  {
    var b := Emitted(a, line, cap);
    var all := a.archive + (a.live + Written(line));
    assert all == a.archive + a.live + Written(line) && all[|all| - 1] == NL;
    if b.live == [] { assert b.archive + b.live == b.archive; }
  }

  /** Over any run the archive followed by the live log is what was emitted, in order; the
      live log is within the cap of the last emit; and no record straddles the two files. */
  lemma {:induction false} LogConserved(a: Files, lines: seq<Line>, caps: seq<nat>)
    requires |lines| == |caps|
    ensures var b := EmittedAll(a, lines, caps);
            && b.archive + b.live == a.archive + a.live + WrittenAll(lines)
            && (lines != [] ==> |b.live| <= caps[|caps| - 1])
            && (AtRecordEnd(a.archive) ==> AtRecordEnd(b.archive))
    decreases |lines|
  {
    if lines != [] {
      EmitConserves(a, lines[0], caps[0]);
      LogConserved(Emitted(a, lines[0], caps[0]), lines[1..], caps[1..]);
      Reassociate(a.archive + a.live, Written(lines[0]), WrittenAll(lines[1..]));
    } else {
      assert a.archive + a.live + [] == a.archive + a.live;
    }
  }

  lemma Reassociate(x: seq<byte>, y: seq<byte>, z: seq<byte>)
    ensures (x + y) + z == x + (y + z)
  {
  }

  /** Splitting written records gives them back, and an empty piece after the last newline. */
  lemma {:induction false} SplitWritten(lines: seq<Line>)
    requires forall i :: 0 <= i < |lines| ==> OneLine(lines[i])
    ensures Split(WrittenAll(lines)) == lines + [[]]
  {
    if lines != [] {
      SplitOne(lines[0]);
      SplitWritten(lines[1..]);
      SplitNewline(lines[0], WrittenAll(lines[1..]));
      assert lines[0] + ([NL] + WrittenAll(lines[1..])) == WrittenAll(lines);
      assert [lines[0]] + (lines[1..] + [[]]) == lines + [[]];
    }
  }

  lemma SelectEmptyLine<D>(parse: Line -> Option<Event<D>>, lines: seq<Line>, cutoff: Option<real>)
    requires parse([]).None?
    ensures Select(parse, lines + [[]], cutoff) == Select(parse, lines, cutoff)
  {
    SelectConcat(parse, lines, [[]], cutoff);
    SelectNothing(parse, [[]], cutoff);
    assert Select(parse, lines, cutoff) + [] == Select(parse, lines, cutoff);
  }

  /** Splitting two files read one after the other, when the first ends at a record. */
  lemma SelectTwoFiles<D>(parse: Line -> Option<Event<D>>, first: seq<byte>, second: seq<byte>, cutoff: Option<real>)
    requires parse([]).None? && AtRecordEnd(first)
    ensures FullScan(parse, first, cutoff) + FullScan(parse, second, cutoff) == FullScan(parse, first + second, cutoff)
  {
    if first == [] {
      assert first + second == second;
      SelectNothing(parse, [[]], cutoff);
      assert Split(first) == [[]];
      assert [] + FullScan(parse, second, cutoff) == FullScan(parse, second, cutoff);
    } else {
      var body := first[..|first| - 1];
      assert first == body + ([NL] + []) && first + second == body + ([NL] + second);
      SplitNewline(body, []);
      SplitNewline(body, second);
      SelectEmptyLine(parse, Split(body), cutoff);
      SelectConcat(parse, Split(body), Split(second), cutoff);
    }
  }

  /** So a reader of both files sees exactly the records emitted, whatever rotated when. */
  lemma NothingLostByRotation<D>(parse: Line -> Option<Event<D>>, lines: seq<Line>, caps: seq<nat>,
        cutoff: Option<real>)
    requires parse([]).None? && |lines| == |caps|
    requires forall i :: 0 <= i < |lines| ==> OneLine(lines[i])
    ensures var b := EmittedAll(Files([], []), lines, caps);
            FullScan(parse, b.archive, cutoff) + FullScan(parse, b.live, cutoff) == Select(parse, lines, cutoff)
  {
    var b := EmittedAll(Files([], []), lines, caps);
    LogConserved(Files([], []), lines, caps);
    SelectTwoFiles(parse, b.archive, b.live, cutoff);
    assert [] + [] + WrittenAll(lines) == WrittenAll(lines);
    SplitWritten(lines);
    SelectEmptyLine(parse, lines, cutoff);
  }

  /** In particular, if every record parses, a reader without a cutoff gets the value of each
      emitted record once, in order. */
  lemma EveryRecordReadBack<D>(parse: Line -> Option<Event<D>>, lines: seq<Line>, caps: seq<nat>)
    requires parse([]).None? && |lines| == |caps|
    requires forall i :: 0 <= i < |lines| ==> OneLine(lines[i]) && parse(lines[i]).Some?
    ensures var b := EmittedAll(Files([], []), lines, caps);
            var out := FullScan(parse, b.archive, None) + FullScan(parse, b.live, None);
            |out| == |lines| && forall i :: 0 <= i < |lines| ==> out[i] == parse(lines[i]).value
  {
    NothingLostByRotation(parse, lines, caps, None);
    AllSelected(parse, lines);
  }

  lemma {:induction false} AllSelected<D>(parse: Line -> Option<Event<D>>, lines: seq<Line>)
    requires forall i :: 0 <= i < |lines| ==> parse(lines[i]).Some?
    ensures var out := Select(parse, lines, None);
            |out| == |lines| && forall i :: 0 <= i < |lines| ==> out[i] == parse(lines[i]).value
  {
    if lines != [] {
      assert forall i :: 0 <= i < |lines[1..]| ==> lines[1..][i] == lines[i + 1];
      AllSelected(parse, lines[1..]);
    }
  }

  // ---------------------------------------------------------------- seeking in what rotation leaves

  lemma {:induction false} WrittenAppend(past: seq<Line>, line: Line)
    ensures WrittenAll(past + [line]) == WrittenAll(past) + Written(line)
  {
    if past == [] {
      assert [line][1..] == [] && WrittenAll([line]) == Written(line) + [];
    } else {
      WrittenAppend(past[1..], line);
      assert (past + [line])[1..] == past[1..] + [line];
      Reassociate(Written(past[0]), WrittenAll(past[1..]), Written(line));
    }
  }

  /** The live log holds the last of the emitted records. */
  lemma {:induction false} LiveIsSuffix(a: Files, past: seq<Line>, lines: seq<Line>, caps: seq<nat>) returns (k: nat)
    requires |lines| == |caps| && a.live == WrittenAll(past)
    ensures k <= |past + lines| && EmittedAll(a, lines, caps).live == WrittenAll((past + lines)[k..])
    decreases |lines|
  {
    if lines == [] {
      k := 0;
      assert (past + lines)[0..] == past;
    } else {
      var next := Emitted(a, lines[0], caps[0]);
      WrittenAppend(past, lines[0]);
      if next.live == [] {
        k := LiveIsSuffix(next, [], lines[1..], caps[1..]);
        assert ([] + lines[1..])[k..] == (past + lines)[|past| + 1 + k..];
        k := |past| + 1 + k;
      } else {
        k := LiveIsSuffix(next, past + [lines[0]], lines[1..], caps[1..]);
        assert (past + [lines[0]]) + lines[1..] == past + lines;
      }
    }
  }

  /** No emitted record has a proper prefix that parses. */
  ghost predicate WholeRecords<D>(parse: Line -> Option<Event<D>>, lines: seq<Line>) {
    forall i, n :: 0 <= i < |lines| && 0 <= n < |lines[i]| ==> parse(lines[i][..n]).None?
  }

  lemma WrittenIsOrdered<D>(parse: Line -> Option<Event<D>>, lines: seq<Line>, k: nat)
    requires parse([]).None? && k <= |lines| && WholeRecords(parse, lines) && Sorted(parse, lines)
    requires forall i :: 0 <= i < |lines| ==> OneLine(lines[i])
    ensures Whole(parse, WrittenAll(lines[k..])) && Sorted(parse, Split(WrittenAll(lines[k..])))
  {
    var rest := lines[k..];
    SplitWritten(rest);
    var all := Split(WrittenAll(rest));
    assert forall i :: 0 <= i < |rest| ==> all[i] == lines[k + i];
    assert all[|rest|] == [];
  }

  /** For records emitted in time order, whatever rotated when: scanning the archive and seeking
      in the live log, with any block size, gives exactly the records since the cutoff. */
  lemma NothingLostBySeeking<D>(parse: Line -> Option<Event<D>>, lines: seq<Line>, caps: seq<nat>, cutoff: real,
        block: nat)
    requires parse([]).None? && |lines| == |caps| && block >= 1
    requires forall i :: 0 <= i < |lines| ==> OneLine(lines[i])
    requires WholeRecords(parse, lines) && Sorted(parse, lines)
    ensures var b := EmittedAll(Files([], []), lines, caps);
            FullScan(parse, b.archive, Some(cutoff))
            + ReadFrom(parse, b.live, Some(cutoff), SeekFrom(parse, b.live, cutoff, block, |b.live|))
            == Select(parse, lines, Some(cutoff))
  {
    var b := EmittedAll(Files([], []), lines, caps);
    NothingLostByRotation(parse, lines, caps, Some(cutoff));
    var k := LiveIsSuffix(Files([], []), [], lines, caps);
    assert [] + lines == lines;
    WrittenIsOrdered(parse, lines, k);
    SeekEqualsScan(parse, b.live, cutoff, block);
  }
}
