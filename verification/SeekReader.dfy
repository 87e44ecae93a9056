/** The backward block seek of `_tail_seek_start` and the reader `_read_jsonl_file`
    (gb_dataflux.py): when skipping the head of a log returns what a full scan does.

    A log is a sequence of bytes.  `json.loads` is a partial function on lines; it is
    a parameter, so the results hold for every parser of the kind described by
    `Whole`. */
module SeekReader {
  import opened Basics

  type Line = seq<byte>

  const NL: byte := 10

  datatype Event<+D> = Event(ts: real, data: D)

  /** `split(b"\n")`: the pieces between newlines, at least one. */
  function Split(s: seq<byte>): (r: seq<Line>)
    ensures r != []
  {
    if s == [] then [[]]
    else
      var rest := Split(s[1..]);
      if s[0] == NL then [[]] + rest else [[s[0]] + rest[0]] + rest[1..]
  }

  /** The events of the lines with `ts >= cutoff`; a missing cutoff keeps them all. */
  function Select<D>(parse: Line -> Option<Event<D>>, lines: seq<Line>, cutoff: Option<real>): seq<Event<D>> {
    if lines == [] then []
    else
      var rest := Select(parse, lines[1..], cutoff);
      if Keeps(parse(lines[0]), cutoff) then [parse(lines[0]).value] + rest else rest
  }

  predicate Keeps<D>(e: Option<Event<D>>, cutoff: Option<real>) {
    e.Some? && (cutoff.None? || e.value.ts >= cutoff.value)
  }

  /** `out` is what is read from the lines from `first` on: the records at the positions `idx`,
      each once and in their order, and these are all that parse and are recent enough. */
  ghost predicate ReadAt<D>(parse: Line -> Option<Event<D>>, lines: seq<Line>, first: nat, cutoff: Option<real>,
        idx: seq<nat>, out: seq<Event<D>>)
  {
    && |idx| == |out|
    && Increasing(idx)
    && (forall k :: 0 <= k < |idx| ==>
          idx[k] < |lines| && parse(lines[idx[k]]).Some? && out[k] == parse(lines[idx[k]]).value)
    && (forall i: nat :: i in idx <==>
          && first <= i < |lines| && parse(lines[i]).Some?
          && (cutoff.None? || parse(lines[i]).value.ts >= cutoff.value))
  }

  /** The timestamp of the first line that parses. */
  function FirstTs<D>(parse: Line -> Option<Event<D>>, lines: seq<Line>): Option<real> {
    if lines == [] then None
    else if parse(lines[0]).Some? then Some(parse(lines[0]).value.ts)
    else FirstTs(parse, lines[1..])
  }

  /** The lines of a block, without a possibly partial first one. */
  function BlockLines(file: seq<byte>, start: nat, pos: nat): seq<Line>
    requires start <= pos <= |file|
  {
    if start > 0 then Split(file[start..pos])[1..] else Split(file[start..pos])
  }

  function SeekFrom<D>(parse: Line -> Option<Event<D>>, file: seq<byte>, cutoff: real, block: nat, pos: nat): (r: nat)
    requires block >= 1 && pos <= |file|
    ensures r <= pos
  {
    if pos == 0 then 0
    else
      var start := Max(0, pos - block);
      var ts := FirstTs(parse, BlockLines(file, start, pos));
      if ts.Some? && ts.value < cutoff then start else SeekFrom(parse, file, cutoff, block, start)
  }

  /** `_tail_seek_start`, with the block size as a parameter. */
  method TailSeekStart<D>(parse: Line -> Option<Event<D>>, file: seq<byte>, cutoff: real, block: nat) returns (r: nat)
    requires block >= 1
    ensures r == SeekFrom(parse, file, cutoff, block, |file|)
  {
    var pos := |file|;
    while pos > 0
      invariant 0 <= pos <= |file|
      invariant SeekFrom(parse, file, cutoff, block, pos) == SeekFrom(parse, file, cutoff, block, |file|)
    {
      var start := Max(0, pos - block);
      var lines := Split(file[start..pos]);
      if start > 0 { lines := lines[1..]; }
      var found: Option<real> := None;
      for k := 0 to |lines|
        invariant found.None? && FirstTs(parse, lines[k..]) == FirstTs(parse, lines)
      {
        var e := parse(lines[k]);
        assert lines[k..][1..] == lines[k + 1..];
        if e.Some? {
          found := Some(e.value.ts);
          break;
        }
      }
      if found.Some? && found.value < cutoff {
        return start;
      }
      pos := start;
    }
    return 0;
  }

  /** What `readline` leaves: everything after the first newline. */
  function AfterLine(s: seq<byte>): seq<byte> {
    if s == [] then [] else if s[0] == NL then s[1..] else AfterLine(s[1..])
  }

  function ReadFrom<D>(parse: Line -> Option<Event<D>>, file: seq<byte>, cutoff: Option<real>,
        start: nat): seq<Event<D>>
    requires start <= |file|
  {
    Select(parse, Split(if start == 0 then file else AfterLine(file[start..])), cutoff)
  }

  /** How many lines a reader that starts here skips: those before it and the one it falls in. */
  function LinesBefore(file: seq<byte>, start: nat): nat
    requires start <= |file|
  {
    if start == 0 then 0 else |Split(file[..start])|
  }

  /** The forward loop of `_read_jsonl_file`. */
  method ScanLines<D>(parse: Line -> Option<Event<D>>, lines: seq<Line>,
        cutoff: Option<real>) returns (out: seq<Event<D>>)
    ensures out == Select(parse, lines, cutoff)
  {
    out := [];
    for k := 0 to |lines|
      invariant out + Select(parse, lines[k..], cutoff) == Select(parse, lines, cutoff)
    {
      var e := parse(lines[k]);
      assert lines[k..][1..] == lines[k + 1..];
      if Keeps(e, cutoff) { out := out + [e.value]; }
    }
  }

  /** `_read_jsonl_file`; the archive is never seeked. */
  method ReadJsonlFile<D>(parse: Line -> Option<Event<D>>, file: seq<byte>, cutoff: Option<real>, isGz: bool,
        block: nat)
    returns (out: seq<Event<D>>)
    requires block >= 1
    ensures out == if cutoff.None? || isGz then FullScan(parse, file, cutoff)
                   else ReadFrom(parse, file, cutoff, SeekFrom(parse, file, cutoff.value, block, |file|))
    ensures var first := if cutoff.None? || isGz then 0
                         else LinesBefore(file, SeekFrom(parse, file, cutoff.value, block, |file|));
            exists idx :: ReadAt(parse, Split(file), first, cutoff, idx, out)
  {
    var start := 0;
    if cutoff.Some? && !isGz { start := TailSeekStart(parse, file, cutoff.value, block); }
    var text := file;
    if start > 0 { text := AfterLine(file[start..]); }
    out := ScanLines(parse, Split(text), cutoff);
    if cutoff.None? || isGz {
      assert Split(file)[0..] == Split(file);
      ghost var idx := SelectPositions(parse, Split(file), 0, cutoff);
    } else {
      ghost var idx := SeekPositions(parse, file, cutoff.value, block);
    }
  }

  /** Reading everything and filtering. */
  function FullScan<D>(parse: Line -> Option<Event<D>>, file: seq<byte>, cutoff: Option<real>): seq<Event<D>> {
    Select(parse, Split(file), cutoff)
  }

  // ---------------------------------------------------------------- assumptions on the log

  /** The empty line does not parse, and no line of the log has a proper prefix that does. */
  ghost predicate Whole<D>(parse: Line -> Option<Event<D>>, file: seq<byte>) {
    && parse([]).None?
    && forall i, n :: 0 <= i < |Split(file)| && 0 <= n < |Split(file)[i]| ==> parse(Split(file)[i][..n]).None?
  }

  /** The records that parse are in time order. */
  ghost predicate Sorted<D>(parse: Line -> Option<Event<D>>, lines: seq<Line>) {
    forall i, j :: 0 <= i < j < |lines| && parse(lines[i]).Some? && parse(lines[j]).Some? ==>
      parse(lines[i]).value.ts <= parse(lines[j]).value.ts
  }

  // ---------------------------------------------------------------- splitting

  /** The lines of a concatenation: the last of the first run into the first of the second. */
  function Glue(x: seq<Line>, y: seq<Line>): seq<Line>
    requires x != [] && y != []
  {
    x[..|x| - 1] + [x[|x| - 1] + y[0]] + y[1..]
  }

  lemma GlueFront(c: byte, x: seq<Line>, y: seq<Line>)
    requires x != [] && y != []
    ensures Glue([[]] + x, y) == [[]] + Glue(x, y)
    ensures Glue([[c] + x[0]] + x[1..], y) == [[c] + Glue(x, y)[0]] + Glue(x, y)[1..]
  {
    var longer := [[]] + x;
    assert longer[..|longer| - 1] == [[]] + x[..|x| - 1];
    var wider := [[c] + x[0]] + x[1..];
    if |x| == 1 {
      assert [c] + (x[0] + y[0]) == ([c] + x[0]) + y[0];
      assert Glue(wider, y)[1..] == y[1..];
    } else {
      assert wider[..|wider| - 1] == [[c] + x[0]] + x[1..|x| - 1];
    }
  }

  lemma {:induction false} SplitConcat(a: seq<byte>, b: seq<byte>)
    ensures Split(a + b) == Glue(Split(a), Split(b))
  {
    if a == [] {
      assert a + b == b;
      assert [] + Split(b)[0] == Split(b)[0];
    } else {
      SplitConcat(a[1..], b);
      assert (a + b)[1..] == a[1..] + b;
      GlueFront(a[0], Split(a[1..]), Split(b));
    }
  }

  lemma GlueAt(x: seq<Line>, y: seq<Line>, i: nat)
    requires x != [] && y != [] && i < |Glue(x, y)|
    ensures |Glue(x, y)| == |x| + |y| - 1
    ensures Glue(x, y)[i] == if i < |x| - 1 then x[i] else if i == |x| - 1 then x[i] + y[0] else y[i + 1 - |x|]
  {
  }

  /** A newline separates. */
  lemma SplitNewline(a: seq<byte>, b: seq<byte>)
    ensures Split(a + ([NL] + b)) == Split(a) + Split(b)
  {
    var x, y := Split(a), Split(b);
    SplitConcat(a, [NL] + b);
    assert ([NL] + b)[1..] == b;
    assert Split([NL] + b) == [[]] + y;
    assert x[|x| - 1] + [] == x[|x| - 1];
    assert x[..|x| - 1] + [x[|x| - 1]] == x;
  }

  /** Some texts with newlines between them. */
  function Joined(lines: seq<Line>): seq<byte> {
    if |lines| <= 1 then (if lines == [] then [] else lines[0]) else lines[0] + ([NL] + Joined(lines[1..]))
  }

  /** The pieces hold no newline, and put together with newlines they are the text. */
  lemma {:induction false} SplitSpec(s: seq<byte>)
    ensures Joined(Split(s)) == s
    ensures forall i :: 0 <= i < |Split(s)| ==> NL !in Split(s)[i]
  {
    if s != [] {
      SplitSpec(s[1..]);
      var rest := Split(s[1..]);
      if s[0] == NL {
        assert ([[]] + rest)[1..] == rest;
        assert s == [] + ([NL] + s[1..]);
      } else {
        assert ([[s[0]] + rest[0]] + rest[1..])[1..] == rest[1..];
        assert s == [s[0]] + s[1..];
        var tail := if |rest| > 1 then [NL] + Joined(rest[1..]) else [];
        assert [s[0]] + (rest[0] + tail) == ([s[0]] + rest[0]) + tail;
      }
    }
  }

  lemma {:induction false} SplitAfterLine(s: seq<byte>)
    ensures |Split(s)| > 1 ==> Split(AfterLine(s)) == Split(s)[1..]
    ensures |Split(s)| == 1 ==> AfterLine(s) == []
  {
    if s != [] { SplitAfterLine(s[1..]); }
  }

  lemma {:induction false} SelectConcat<D>(parse: Line -> Option<Event<D>>, a: seq<Line>, b: seq<Line>,
        cutoff: Option<real>)
    ensures Select(parse, a + b, cutoff) == Select(parse, a, cutoff) + Select(parse, b, cutoff)
  {
    if a == [] {
      assert a + b == b;
    } else {
      assert (a + b)[1..] == a[1..] + b;
      SelectConcat(parse, a[1..], b, cutoff);
    }
  }

  lemma {:induction false} SelectNothing<D>(parse: Line -> Option<Event<D>>, a: seq<Line>, cutoff: Option<real>)
    requires forall i :: 0 <= i < |a| ==> !Keeps(parse(a[i]), cutoff)
    ensures Select(parse, a, cutoff) == []
  {
    if a != [] {
      forall i | 0 <= i < |a[1..]| ensures !Keeps(parse(a[1..][i]), cutoff) { assert a[1..][i] == a[i + 1]; }
      SelectNothing(parse, a[1..], cutoff);
    }
  }

  /** Reading by positions, and by nothing else. */
  lemma {:induction false} SelectPositions<D>(parse: Line -> Option<Event<D>>, lines: seq<Line>, first: nat,
        cutoff: Option<real>) returns (idx: seq<nat>)
    requires first <= |lines|
    ensures ReadAt(parse, lines, first, cutoff, idx, Select(parse, lines[first..], cutoff))
    decreases |lines| - first
  {
    if first == |lines| {
      idx := [];
    } else {
      var later := SelectPositions(parse, lines, first + 1, cutoff);
      assert lines[first..][1..] == lines[first + 1..];
      if Keeps(parse(lines[first]), cutoff) {
        idx := [first] + later;
        OneMore(parse, lines, first, cutoff, later, Select(parse, lines[first + 1..], cutoff));
      } else {
        idx := later;
      }
    }
  }

  lemma OneMore<D>(parse: Line -> Option<Event<D>>, lines: seq<Line>, first: nat, cutoff: Option<real>,
        idx: seq<nat>, out: seq<Event<D>>)
    requires first < |lines| && ReadAt(parse, lines, first + 1, cutoff, idx, out) && Keeps(parse(lines[first]), cutoff)
    ensures ReadAt(parse, lines, first, cutoff, [first] + idx, [parse(lines[first]).value] + out)
  {
    Increases(first, idx);
  }

  lemma {:induction false} FirstTsAt<D>(parse: Line -> Option<Event<D>>, lines: seq<Line>) returns (k: nat)
    requires FirstTs(parse, lines).Some?
    ensures k < |lines| && parse(lines[k]).Some? && parse(lines[k]).value.ts == FirstTs(parse, lines).value
  {
    if parse(lines[0]).Some? {
      k := 0;
    } else {
      k := FirstTsAt(parse, lines[1..]);
      k := k + 1;
    }
  }

  // ---------------------------------------------------------------- the seek is safe

  /** Where the lines of a block stand in the log: the k-th after the first is a whole
      line, except that the last one runs on into the bytes after the block. */
  lemma BlockLineAt(head: seq<byte>, block: seq<byte>, tail: seq<byte>, k: nat)
    requires k + 1 < |Split(block)|
    ensures var lines, j := Split(head + (block + tail)), |Split(head)| + k;
            && j < |lines|
            && lines[j] == Split(block)[k + 1] + (if k + 2 == |Split(block)| then Split(tail)[0] else [])
    ensures |Split(block + tail)| > 1
  {
    SplitConcat(block, tail);
    SplitConcat(head, block + tail);
    GluedAt(Split(head), Split(block), Split(tail), k);
  }

  lemma GluedAt(x: seq<Line>, y: seq<Line>, z: seq<Line>, k: nat)
    requires x != [] && z != [] && k + 1 < |y|
    ensures |Glue(y, z)| > 1 && |x| + k < |Glue(x, Glue(y, z))|
    ensures Glue(x, Glue(y, z))[|x| + k] == y[k + 1] + (if k + 2 == |y| then z[0] else [])
  {
    GlueAt(y, z, k + 1);
    GlueAt(x, Glue(y, z), |x| + k);
    assert y[k + 1] + [] == y[k + 1];
  }

  /** A record found in a block, past its first line, starts a line of the log. */
  lemma RecordInBlock<D>(parse: Line -> Option<Event<D>>, head: seq<byte>, block: seq<byte>, tail: seq<byte>)
    returns (j: nat, found: Line)
    requires FirstTs(parse, Split(block)[1..]).Some?
    ensures var lines := Split(head + (block + tail)); |Split(head)| <= j < |lines| && found <= lines[j]
    ensures parse(found).Some? && parse(found).value.ts == FirstTs(parse, Split(block)[1..]).value
    ensures |Split(block + tail)| > 1
  {
    var rest := Split(block)[1..];
    var k := FirstTsAt(parse, rest);
    j, found := |Split(head)| + k, rest[k];
    BlockLineStarts(head, block, tail, rest, k);
  }

  lemma BlockLineStarts(head: seq<byte>, block: seq<byte>, tail: seq<byte>, rest: seq<Line>, k: nat)
    requires rest == Split(block)[1..] && k < |rest|
    ensures var lines, j := Split(head + (block + tail)), |Split(head)| + k; j < |lines| && rest[k] <= lines[j]
    ensures |Split(block + tail)| > 1
  {
    BlockLineAt(head, block, tail, k);
  }

  lemma Parts(file: seq<byte>, start: nat, pos: nat)
    requires start <= pos <= |file|
    ensures file[start..pos] + file[pos..] == file[start..]
    ensures file[..start] + (file[start..pos] + file[pos..]) == file
  {
  }

  /** A record found in a block is a whole line of the log, past the line the block
      starts in. */
  lemma FoundIsALine<D>(parse: Line -> Option<Event<D>>, file: seq<byte>, start: nat, pos: nat) returns (j: nat)
    requires Whole(parse, file) && 0 < start <= pos <= |file|
    requires FirstTs(parse, BlockLines(file, start, pos)).Some?
    ensures |Split(file[..start])| <= j < |Split(file)| && parse(Split(file)[j]).Some?
    ensures parse(Split(file)[j]).value.ts == FirstTs(parse, BlockLines(file, start, pos)).value
    ensures |Split(file[start..])| > 1
  {
    Parts(file, start, pos);
    var found: Line;
    j, found := RecordInBlock(parse, file[..start], file[start..pos], file[pos..]);
    PrefixWhole(parse, file, j, found);
  }

  lemma PrefixWhole<D>(parse: Line -> Option<Event<D>>, file: seq<byte>, j: nat, found: Line)
    requires Whole(parse, file) && j < |Split(file)| && found <= Split(file)[j] && parse(found).Some?
    ensures found == Split(file)[j]
  {
    assert found == Split(file)[j][..|found|];
  }

  /** A start inside the log drops exactly the lines up to the one it falls in. */
  lemma ReadFromSplits<D>(parse: Line -> Option<Event<D>>, file: seq<byte>, cutoff: Option<real>, start: nat)
    requires 0 < start <= |file| && |Split(file[start..])| > 1
    ensures |Split(file[..start])| <= |Split(file)|
    ensures FullScan(parse, file, cutoff)
            == Select(parse, Split(file)[..|Split(file[..start])|], cutoff) + ReadFrom(parse, file, cutoff, start)
  {
    var head, rest := file[..start], file[start..];
    assert head + rest == file;
    SplitConcat(head, rest);
    SplitAfterLine(rest);
    var x, y := Split(head), Split(rest);
    assert Split(file)[..|x|] == x[..|x| - 1] + [x[|x| - 1] + y[0]];
    assert Split(file) == Split(file)[..|x|] + y[1..];
    SelectConcat(parse, Split(file)[..|x|], y[1..], cutoff);
  }

  lemma {:induction false} SeekIsSafe<D>(parse: Line -> Option<Event<D>>, file: seq<byte>, cutoff: real, block: nat,
        pos: nat)
    requires Whole(parse, file) && Sorted(parse, Split(file)) && block >= 1 && pos <= |file|
    ensures ReadFrom(parse, file, Some(cutoff), SeekFrom(parse, file, cutoff, block, pos))
            == FullScan(parse, file, Some(cutoff))
    decreases pos
  {
    if pos > 0 {
      var start := Max(0, pos - block);
      var ts := FirstTs(parse, BlockLines(file, start, pos));
      if ts.Some? && ts.value < cutoff {
        if start > 0 {
          var j := FoundIsALine(parse, file, start, pos);
          ReadFromSplits(parse, file, Some(cutoff), start);
          SelectNothing(parse, Split(file)[..|Split(file[..start])|], Some(cutoff));
        }
      } else {
        SeekIsSafe(parse, file, cutoff, block, start);
      }
    }
  }

  /** On a log in time order the seeking reader returns exactly the full scan, whatever
      the cutoff and the block size: lines longer than a block and lines that do not parse
      included. */
  lemma SeekEqualsScan<D>(parse: Line -> Option<Event<D>>, file: seq<byte>, cutoff: real, block: nat)
    requires Whole(parse, file) && Sorted(parse, Split(file)) && block >= 1
    ensures ReadFrom(parse, file, Some(cutoff), SeekFrom(parse, file, cutoff, block, |file|))
            == FullScan(parse, file, Some(cutoff))
  {
    SeekIsSafe(parse, file, cutoff, block, |file|);
  }

  // ---------------------------------------------------------------- and only then

  /** Where line i ends. */
  lemma {:induction false} LineEnd(file: seq<byte>, i: nat) returns (k: nat)
    requires i + 1 < |Split(file)|
    ensures k < |file| && file[k] == NL && |Split(file[..k])| == i + 1
    decreases |file|
  {
    if file[0] == NL && i == 0 {
      k := 0;
    } else {
      k := LineEnd(file[1..], if file[0] == NL then i - 1 else i);
      k := k + 1;
      assert file[..k][1..] == file[1..][..k - 1];
    }
  }

  /** The newline after line i cuts the log in two. */
  lemma SplitAt(file: seq<byte>, i: nat) returns (a: seq<byte>, b: seq<byte>)
    requires i + 1 < |Split(file)|
    ensures file == a + [NL] + b && Split(a) == Split(file)[..i + 1] && Split(b) == Split(file)[i + 1..]
  {
    var k := LineEnd(file, i);
    a, b := file[..k], file[k + 1..];
    assert file == a + [NL] + b == a + ([NL] + b);
    SplitNewline(a, b);
  }

  /** Two records out of order enclose two neighbouring records out of order. */
  lemma {:induction false} Neighbours<D>(parse: Line -> Option<Event<D>>, lines: seq<Line>, i: nat,
        j: nat) returns (p: nat, q: nat)
    requires i < j < |lines| && parse(lines[i]).Some? && parse(lines[j]).Some?
    requires parse(lines[i]).value.ts > parse(lines[j]).value.ts
    ensures p < q < |lines| && parse(lines[p]).Some? && parse(lines[q]).Some?
    ensures parse(lines[p]).value.ts > parse(lines[q]).value.ts
    ensures forall k :: p < k < q ==> parse(lines[k]).None?
    decreases j - i
  {
    if m :| i < m < j && parse(lines[m]).Some? {
      if parse(lines[i]).value.ts > parse(lines[m]).value.ts {
        p, q := Neighbours(parse, lines, i, m);
      } else {
        p, q := Neighbours(parse, lines, m, j);
      }
    } else {
      p, q := i, j;
    }
  }

  lemma {:induction false} FirstTsIs<D>(parse: Line -> Option<Event<D>>, lines: seq<Line>, q: nat)
    requires q < |lines| && parse(lines[q]).Some? && forall k :: 0 <= k < q ==> parse(lines[k]).None?
    ensures FirstTs(parse, lines) == Some(parse(lines[q]).value.ts)
  {
    if q > 0 {
      forall k | 0 <= k < q - 1 ensures parse(lines[1..][k]).None? { assert lines[1..][k] == lines[k + 1]; }
      FirstTsIs(parse, lines[1..], q - 1);
    }
  }

  lemma {:induction false} SelectSomething<D>(parse: Line -> Option<Event<D>>, a: seq<Line>, cutoff: Option<real>,
        i: nat)
    requires i < |a| && Keeps(parse(a[i]), cutoff)
    ensures |Select(parse, a, cutoff)| >= 1
  {
    if i > 0 { SelectSomething(parse, a[1..], cutoff, i - 1); }
  }

  /** A block that begins at the newline after `a` makes the seek stop there when the
      first record of the rest is too old. */
  lemma SeekStopsAt<D>(parse: Line -> Option<Event<D>>, a: seq<byte>, b: seq<byte>, cutoff: real)
    requires a != [] && FirstTs(parse, Split(b)).Some? && FirstTs(parse, Split(b)).value < cutoff
    ensures var file := a + [NL] + b;
            SeekFrom(parse, file, cutoff, |file| - |a|, |file|) == |a|
  {
    var file := a + [NL] + b;
    assert file[|a|..|file|] == [NL] + b;
    assert ([NL] + b)[1..] == b;
    assert BlockLines(file, |a|, |file|) == Split(b);
  }

  /** Starting at that newline drops the lines of `a`. */
  lemma StartDrops<D>(parse: Line -> Option<Event<D>>, a: seq<byte>, b: seq<byte>, cutoff: Option<real>)
    requires a != []
    ensures var file := a + [NL] + b;
            FullScan(parse, file, cutoff) == Select(parse, Split(a), cutoff) + ReadFrom(parse, file, cutoff, |a|)
  {
    var file := a + [NL] + b;
    assert file == a + ([NL] + b);
    assert file[|a|..] == [NL] + b && ([NL] + b)[1..] == b;
    SplitNewline(a, b);
    SelectConcat(parse, Split(a), Split(b), cutoff);
  }

  /** A log with a record older than an earlier one is misread with some block size: the seek
      then starts at the newline between them and skips the newer record. */
  lemma DisorderIsMissed<D>(parse: Line -> Option<Event<D>>, file: seq<byte>, i: nat, j: nat) returns (cutoff: real,
        block: nat)
    requires parse([]).None?
    requires var lines := Split(file);
             i < j < |lines| && parse(lines[i]).Some? && parse(lines[j]).Some?
             && parse(lines[i]).value.ts > parse(lines[j]).value.ts
    ensures block >= 1
    ensures ReadFrom(parse, file, Some(cutoff), SeekFrom(parse, file, cutoff, block, |file|))
            != FullScan(parse, file, Some(cutoff))
  {
    var lines := Split(file);
    var p, q := Neighbours(parse, lines, i, j);
    var a, b := SplitAt(file, p);
    cutoff, block := parse(lines[p]).value.ts, |file| - |a|;
    assert Split(a)[p] == lines[p];
    FirstAfter(parse, lines, Split(b), p, q);
    MissedBefore(parse, a, b, p);
  }

  lemma FirstAfter<D>(parse: Line -> Option<Event<D>>, lines: seq<Line>, later: seq<Line>, p: nat, q: nat)
    requires p < q < |lines| && later == lines[p + 1..] && parse(lines[q]).Some?
    requires forall k :: p < k < q ==> parse(lines[k]).None?
    ensures FirstTs(parse, later) == Some(parse(lines[q]).value.ts)
  {
    forall k | 0 <= k < q - p - 1 ensures parse(later[k]).None? { assert later[k] == lines[p + 1 + k]; }
    FirstTsIs(parse, later, q - p - 1);
  }

  /** With a block that starts at the newline after `a`, and a record in `a` that is newer than
      the first one after it, the seek skips that record. */
  lemma MissedBefore<D>(parse: Line -> Option<Event<D>>, a: seq<byte>, b: seq<byte>, p: nat)
    requires parse([]).None? && p < |Split(a)| && parse(Split(a)[p]).Some? && FirstTs(parse, Split(b)).Some?
    requires FirstTs(parse, Split(b)).value < parse(Split(a)[p]).value.ts
    ensures var file, cutoff := a + [NL] + b, parse(Split(a)[p]).value.ts;
            ReadFrom(parse, file, Some(cutoff), SeekFrom(parse, file, cutoff, |file| - |a|, |file|))
            != FullScan(parse, file, Some(cutoff))
  {
    var cutoff := parse(Split(a)[p]).value.ts;
    assert a != [] by { assert Split([]) == [[]]; }
    SeekStopsAt(parse, a, b, cutoff);
    StartDrops(parse, a, b, Some(cutoff));
    SelectSomething(parse, Split(a), Some(cutoff), p);
  }

  ghost predicate AlwaysRight<D>(parse: Line -> Option<Event<D>>, file: seq<byte>) {
    forall cutoff: real, block: nat :: block >= 1 ==>
      ReadFrom(parse, file, Some(cutoff), SeekFrom(parse, file, cutoff, block, |file|))
        == FullScan(parse, file, Some(cutoff))
  }

  /** The reader is right for every cutoff and every block size if and only if the log's
      records are in time order. */
  lemma RightIffSorted<D>(parse: Line -> Option<Event<D>>, file: seq<byte>)
    requires Whole(parse, file)
    ensures AlwaysRight(parse, file) <==> Sorted(parse, Split(file))
  {
    if Sorted(parse, Split(file)) {
      forall cutoff: real, block: nat | block >= 1
        ensures ReadFrom(parse, file, Some(cutoff), SeekFrom(parse, file, cutoff, block, |file|))
                == FullScan(parse, file, Some(cutoff))
      {
        SeekEqualsScan(parse, file, cutoff, block);
      }
    } else {
      var lines := Split(file);
      var i, j :| 0 <= i < j < |lines| && parse(lines[i]).Some? && parse(lines[j]).Some?
                  && parse(lines[i]).value.ts > parse(lines[j]).value.ts;
      var cutoff, block := DisorderIsMissed(parse, file, i, j);
    }
  }

  // ---------------------------------------------------------------- one block size

  /** The block size of the code. */
  const BLOCK: nat := 1048576

  /** The places before `end` where a block starts, counting back from it. */
  predicate BlockStart(block: nat, end: nat, s: nat)
    requires block >= 1
  {
    end > block && (s == end - block || BlockStart(block, end - block, s))
  }

  lemma {:induction false} StartBounds(block: nat, end: nat, s: nat)
    requires block >= 1 && BlockStart(block, end, s)
    ensures 0 < s && s + block <= end
  {
    if s != end - block { StartBounds(block, end - block, s); }
  }

  /** The first timestamp that the seek finds in the block from s on. */
  function FirstIn<D>(parse: Line -> Option<Event<D>>, file: seq<byte>, block: nat, s: nat): Option<real> {
    if s + block <= |file| then FirstTs(parse, BlockLines(file, s, s + block)) else None
  }

  predicate TooOld(ts: Option<real>, cutoff: real) {
    ts.Some? && ts.value < cutoff
  }

  /** The seek stops at the last block start whose first record is older than the cutoff, and
      at 0 if there is none. */
  ghost predicate StopsFirst<D>(parse: Line -> Option<Event<D>>, file: seq<byte>, cutoff: real, block: nat, pos: nat,
        r: nat)
    requires block >= 1
  {
    && (r == 0 || (BlockStart(block, pos, r) && TooOld(FirstIn(parse, file, block, r), cutoff)))
    && forall s :: BlockStart(block, pos, s) && r < s ==> !TooOld(FirstIn(parse, file, block, s), cutoff)
  }

  lemma StopsAtOnce<D>(parse: Line -> Option<Event<D>>, file: seq<byte>, cutoff: real, block: nat, pos: nat)
    requires block >= 1 && block < pos <= |file| && TooOld(FirstIn(parse, file, block, pos - block), cutoff)
    ensures StopsFirst(parse, file, cutoff, block, pos, pos - block)
  {
    forall s: nat | BlockStart(block, pos, s) ensures s <= pos - block { StartBounds(block, pos, s); }
  }

  lemma StopsLater<D>(parse: Line -> Option<Event<D>>, file: seq<byte>, cutoff: real, block: nat, pos: nat, r: nat)
    requires block >= 1 && block < pos <= |file| && !TooOld(FirstIn(parse, file, block, pos - block), cutoff)
    requires StopsFirst(parse, file, cutoff, block, pos - block, r)
    ensures StopsFirst(parse, file, cutoff, block, pos, r)
  {
  }

  lemma {:induction false} SeekSpec<D>(parse: Line -> Option<Event<D>>, file: seq<byte>, cutoff: real, block: nat,
        pos: nat)
    requires block >= 1 && pos <= |file|
    ensures StopsFirst(parse, file, cutoff, block, pos, SeekFrom(parse, file, cutoff, block, pos))
    decreases pos
  {
    if pos <= block {
      assert SeekFrom(parse, file, cutoff, block, pos) == 0 by { assert Max(0, pos - block) == 0; }
    } else if TooOld(FirstIn(parse, file, block, pos - block), cutoff) {
      StopsAtOnce(parse, file, cutoff, block, pos);
    } else {
      SeekSpec(parse, file, cutoff, block, pos - block);
      StopsLater(parse, file, cutoff, block, pos, SeekFrom(parse, file, cutoff, block, pos - block));
    }
  }

  /** Some cutoff makes the seek stop here: the block's first record is older than the first
      records of all later blocks. */
  ghost predicate StopsHere<D>(parse: Line -> Option<Event<D>>, file: seq<byte>, block: nat, s: nat)
    requires block >= 1
  {
    && BlockStart(block, |file|, s) && FirstIn(parse, file, block, s).Some?
    && forall u | BlockStart(block, |file|, u) && s < u && FirstIn(parse, file, block, u).Some? ::
      FirstIn(parse, file, block, s).value < FirstIn(parse, file, block, u).value
  }

  /** No record in the lines that a start here drops is newer than the block's first one. */
  ghost predicate NothingNewer<D>(parse: Line -> Option<Event<D>>, file: seq<byte>, block: nat, s: nat)
    requires s <= |file|
  {
    forall i | 0 <= i < |Split(file)| && i < |Split(file[..s])| && parse(Split(file)[i]).Some? ::
      FirstIn(parse, file, block, s).Some? ==> parse(Split(file)[i]).value.ts <= FirstIn(parse, file, block, s).value
  }

  ghost predicate RightAt<D>(parse: Line -> Option<Event<D>>, file: seq<byte>, block: nat, cutoff: real)
    requires block >= 1
  {
    ReadFrom(parse, file, Some(cutoff), SeekFrom(parse, file, cutoff, block, |file|))
      == FullScan(parse, file, Some(cutoff))
  }

  /** A block with a record in it starts before the last line of the log. */
  lemma RecordMeansLines<D>(parse: Line -> Option<Event<D>>, file: seq<byte>, block: nat, s: nat)
    requires 0 < s && s + block <= |file| && FirstIn(parse, file, block, s).Some?
    ensures |Split(file[s..])| > 1
  {
    Parts(file, s, s + block);
    var j, found := RecordInBlock(parse, file[..s], file[s..s + block], file[s + block..]);
  }

  /** At every place where some cutoff makes the seek stop, nothing newer is dropped. */
  ghost predicate DropsNothingNewer<D>(parse: Line -> Option<Event<D>>, file: seq<byte>, block: nat)
    requires block >= 1
  {
    forall s: nat :: s <= |file| && StopsHere(parse, file, block, s) ==> NothingNewer(parse, file, block, s)
  }

  /** What the seeking reader returns are the records from the line after the one it starts in. */
  lemma SeekPositions<D>(parse: Line -> Option<Event<D>>, file: seq<byte>, cutoff: real, block: nat)
    returns (idx: seq<nat>)
    requires block >= 1
    ensures var start := SeekFrom(parse, file, cutoff, block, |file|);
            && LinesBefore(file, start) <= |Split(file)|
            && ReadAt(parse, Split(file), LinesBefore(file, start), Some(cutoff), idx,
                      ReadFrom(parse, file, Some(cutoff), start))
  {
    var start := SeekFrom(parse, file, cutoff, block, |file|);
    SeekSpec(parse, file, cutoff, block, |file|);
    if start > 0 {
      StartBounds(block, |file|, start);
      RecordMeansLines(parse, file, block, start);
      ReadFromRest(file, start);
    } else {
      assert Split(file)[0..] == Split(file);
    }
    idx := SelectPositions(parse, Split(file), LinesBefore(file, start), Some(cutoff));
  }

  lemma ReadFromRest(file: seq<byte>, start: nat)
    requires 0 < start <= |file| && |Split(file[start..])| > 1
    ensures LinesBefore(file, start) <= |Split(file)|
    ensures Split(AfterLine(file[start..])) == Split(file)[LinesBefore(file, start)..]
  {
    assert file[..start] + file[start..] == file;
    SplitConcat(file[..start], file[start..]);
    SplitAfterLine(file[start..]);
  }

  lemma StopsRight<D>(parse: Line -> Option<Event<D>>, file: seq<byte>, block: nat, cutoff: real)
    requires block >= 1 && DropsNothingNewer(parse, file, block)
    ensures RightAt(parse, file, block, cutoff)
  {
    SeekSpec(parse, file, cutoff, block, |file|);
    var r := SeekFrom(parse, file, cutoff, block, |file|);
    if r > 0 {
      StartBounds(block, |file|, r);
      assert StopsHere(parse, file, block, r);
      assert NothingNewer(parse, file, block, r);
      RecordMeansLines(parse, file, block, r);
      ReadFromSplits(parse, file, Some(cutoff), r);
      SelectNothing(parse, Split(file)[..|Split(file[..r])|], Some(cutoff));
    }
  }

  /** A cutoff above the first record of the block at s, but neither above x nor above the first
      record of any later block. */
  lemma {:induction false} CutoffBetween<D>(parse: Line -> Option<Event<D>>, file: seq<byte>, block: nat, s: nat,
        x: real, pos: nat) returns (c: real)
    requires block >= 1 && pos <= |file| && BlockStart(block, pos, s) && FirstIn(parse, file, block, s).Some?
    requires FirstIn(parse, file, block, s).value < x
    requires forall u | BlockStart(block, pos, u) && s < u && FirstIn(parse, file, block, u).Some? ::
      FirstIn(parse, file, block, s).value < FirstIn(parse, file, block, u).value
    ensures FirstIn(parse, file, block, s).value < c <= x
    ensures forall u :: BlockStart(block, pos, u) && s < u ==> !TooOld(FirstIn(parse, file, block, u), c)
    decreases pos
  {
    var start := pos - block;
    forall u: nat | BlockStart(block, pos, u) ensures u <= start { StartBounds(block, pos, u); }
    if start == s {
      c := x;
    } else {
      StartBounds(block, start, s);
      c := CutoffBetween(parse, file, block, s, x, start);
      var first := FirstIn(parse, file, block, start);
      if first.Some? && first.value < c { c := first.value; }
    }
  }

  lemma StopsOnlyHere<D>(parse: Line -> Option<Event<D>>, file: seq<byte>, block: nat, s: nat, c: real)
    requires block >= 1 && BlockStart(block, |file|, s) && TooOld(FirstIn(parse, file, block, s), c)
    requires forall u :: BlockStart(block, |file|, u) && s < u ==> !TooOld(FirstIn(parse, file, block, u), c)
    ensures SeekFrom(parse, file, c, block, |file|) == s
  {
    SeekSpec(parse, file, c, block, |file|);
    StartBounds(block, |file|, s);
  }

  lemma StopsWrong<D>(parse: Line -> Option<Event<D>>, file: seq<byte>, block: nat, s: nat) returns (c: real)
    requires block >= 1 && s <= |file| && StopsHere(parse, file, block, s) && !NothingNewer(parse, file, block, s)
    ensures !RightAt(parse, file, block, c)
  {
    var i :| 0 <= i < |Split(file)| && i < |Split(file[..s])| && parse(Split(file)[i]).Some?
             && parse(Split(file)[i]).value.ts > FirstIn(parse, file, block, s).value;
    c := CutoffBetween(parse, file, block, s, parse(Split(file)[i]).value.ts, |file|);
    StopsOnlyHere(parse, file, block, s, c);
    StartBounds(block, |file|, s);
    RecordMeansLines(parse, file, block, s);
    ReadFromSplits(parse, file, Some(c), s);
    SelectSomething(parse, Split(file)[..|Split(file[..s])|], Some(c), i);
  }

  /** The exact condition at one block size, for any log and any parser: the reader is right for
      every cutoff if and only if, at every block start whose first record is older than those
      of all later blocks, no record in the lines before it is newer.  (In particular a log of
      at most one block is always read right.) */
  lemma RightAtBlockIff<D>(parse: Line -> Option<Event<D>>, file: seq<byte>, block: nat)
    requires block >= 1
    ensures (forall cutoff: real :: RightAt(parse, file, block, cutoff)) <==> DropsNothingNewer(parse, file, block)
  {
    if DropsNothingNewer(parse, file, block) {
      forall cutoff: real ensures RightAt(parse, file, block, cutoff) { StopsRight(parse, file, block, cutoff); }
    } else {
      var s: nat :| s <= |file| && StopsHere(parse, file, block, s) && !NothingNewer(parse, file, block, s);
      var c := StopsWrong(parse, file, block, s);
    }
  }

  lemma {:induction false} SplitOne(line: Line)
    requires NL !in line
    ensures Split(line) == [line]
  {
    if line != [] {
      SplitOne(line[1..]);
      assert line == [line[0]] + line[1..];
    }
  }

  /** Logs that the code misreads with its own block size, for any parser: a record, an older
      one, and text that fills the last 1 MiB.  Asked for everything since the first record,
      the reader starts at the newline after it. */
  lemma MisreadAtOneMiB<D>(parse: Line -> Option<Event<D>>, newer: Line, older: Line, rest: seq<byte>)
    requires newer != [] && NL !in newer && NL !in older && parse(newer).Some? && parse(older).Some?
    requires parse(newer).value.ts > parse(older).value.ts && |older| + |rest| + 2 == BLOCK
    ensures var file := newer + [NL] + (older + ([NL] + rest));
            |file| == |newer| + BLOCK && !RightAt(parse, file, BLOCK, parse(newer).value.ts)
  {
    var b, cutoff := older + ([NL] + rest), parse(newer).value.ts;
    SplitOne(newer);
    SplitOne(older);
    SplitNewline(older, rest);
    SeekStopsAt(parse, newer, b, cutoff);
    StartDrops(parse, newer, b, Some(cutoff));
    SelectSomething(parse, Split(newer), Some(cutoff), 0);
  }
}
