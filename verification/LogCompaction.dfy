/** `compact_archive` (gb_dataflux.py): drop expired and unparseable records, then the
    oldest ones until the archive fits its byte ceiling. */
module LogCompaction {
  import opened Basics
  import opened SeekReader
  import opened EventLog

  /** The ASCII whitespace that `str.strip` removes. */
  predicate IsSpace(b: byte) {
    b == 32 || 9 <= b <= 13 || 28 <= b <= 31
  }

  function StripLeft(line: Line): Line {
    if line != [] && IsSpace(line[0]) then StripLeft(line[1..]) else line
  }

  function StripRight(line: Line): Line {
    if line != [] && IsSpace(line[|line| - 1]) then StripRight(line[..|line| - 1]) else line
  }

  function Strip(line: Line): Line {
    StripRight(StripLeft(line))
  }

  /** A kept record: its timestamp and its stripped text. */
  datatype Record = Record(ts: real, text: Line)

  function NonBlank(lines: seq<Line>): nat {
    if lines == [] then 0 else (if Strip(lines[0]) != [] then 1 else 0) + NonBlank(lines[1..])
  }

  /** The unexpired records, in file order. */
  function Unexpired<D>(parse: Line -> Option<Event<D>>, lines: seq<Line>, cutoff: real): seq<Record> {
    if lines == [] then []
    else
      var text := Strip(lines[0]);
      var rest := Unexpired(parse, lines[1..], cutoff);
      if text != [] && parse(text).Some? && parse(text).value.ts >= cutoff
      then [Record(parse(text).value.ts, text)] + rest
      else rest
  }

  /** The stable sort by timestamp. */
  function InsertByTs(r: Record, s: seq<Record>): seq<Record> {
    if s == [] || r.ts <= s[0].ts then [r] + s else [s[0]] + InsertByTs(r, s[1..])
  }

  function SortByTs(s: seq<Record>): seq<Record> {
    if s == [] then [] else InsertByTs(s[0], SortByTs(s[1..]))
  }

  /** The bytes of the records with their newlines. */
  function RawSize(s: seq<Record>): nat {
    if s == [] then 0 else |s[0].text| + 1 + RawSize(s[1..])
  }

  function Trim(s: seq<Record>, maxBytes: nat): seq<Record> {
    if RawSize(s) > maxBytes && s != [] then Trim(s[1..], maxBytes) else s
  }

  function Texts(s: seq<Record>): seq<Line> {
    if s == [] then [] else [s[0].text] + Texts(s[1..])
  }

  function Compacted<D>(parse: Line -> Option<Event<D>>, archive: seq<byte>, cutoff: real, maxBytes: nat): seq<Record> {
    Trim(SortByTs(Unexpired(parse, Split(archive), cutoff)), maxBytes)
  }

  /** How many records a compaction drops, and the archive it leaves. */
  function Compaction<D>(parse: Line -> Option<Event<D>>, archive: seq<byte>, cutoff: real, maxBytes: nat): (int,
        seq<byte>) {
    var kept := Compacted(parse, archive, cutoff, maxBytes);
    var dropped := NonBlank(Split(archive)) - |kept|;
    (dropped, if dropped == 0 then archive else WrittenAll(Texts(kept)))
  }

  method CompactArchive<D>(parse: Line -> Option<Event<D>>, archive: Option<seq<byte>>, cutoff: real, maxBytes: nat)
    returns (dropped: Option<int>, rewritten: Option<seq<byte>>)
    ensures archive.None? ==> dropped.None? && rewritten.None?
    ensures archive.Some? ==>
      var c := Compaction(parse, archive.value, cutoff, maxBytes);
      dropped == Some(c.0) && rewritten == Some(c.1)
  {
    if archive.None? { return None, None; }
    var kept, total := KeepNewest(parse, archive.value, cutoff, maxBytes);
    if total - |kept| == 0 { return Some(0), archive; }
    var out := WriteRecords(kept);
    return Some(total - |kept|), Some(out);
  }

  /** What survives retention and the size backstop, and how many lines there were. */
  method KeepNewest<D>(parse: Line -> Option<Event<D>>, archive: seq<byte>, cutoff: real, maxBytes: nat)
    returns (kept: seq<Record>, total: nat)
    ensures kept == Compacted(parse, archive, cutoff, maxBytes) && total == NonBlank(Split(archive))
  {
    kept, total := CollectUnexpired(parse, Split(archive), cutoff);
    kept := SortByTs(kept);
    kept := TrimOldest(kept, maxBytes);
  }

  /** The size backstop: pop from the front while the running size is over the ceiling. */
  method TrimOldest(s: seq<Record>, maxBytes: nat) returns (kept: seq<Record>)
    ensures kept == Trim(s, maxBytes)
  {
    kept := s;
    var rawSize: int := SumSizes(s);
    while rawSize > maxBytes && |kept| > 0
      invariant rawSize == RawSize(kept) && Trim(kept, maxBytes) == Trim(s, maxBytes)
      decreases |kept|
    {
      rawSize := rawSize - (|kept[0].text| + 1);
      kept := kept[1..];
    }
  }

  method WriteRecords(s: seq<Record>) returns (out: seq<byte>)
    ensures out == WrittenAll(Texts(s))
  {
    out := [];
    for k := 0 to |s|
      invariant out + WrittenAll(Texts(s[k..])) == WrittenAll(Texts(s))
    {
      var rest := WrittenAll(Texts(s[k + 1..]));
      assert s[k..][1..] == s[k + 1..];
      assert WrittenAll(Texts(s[k..])) == Written(s[k].text) + rest;
      Reassociate(out, Written(s[k].text), rest);
      out := out + Written(s[k].text);
    }
    assert out + [] == out;
  }

  method CollectUnexpired<D>(parse: Line -> Option<Event<D>>, lines: seq<Line>,
        cutoff: real) returns (kept: seq<Record>, total: nat)
    ensures kept == Unexpired(parse, lines, cutoff) && total == NonBlank(lines)
  {
    kept, total := [], 0;
    for k := 0 to |lines|
      invariant kept + Unexpired(parse, lines[k..], cutoff) == Unexpired(parse, lines, cutoff)
      invariant total + NonBlank(lines[k..]) == NonBlank(lines)
    {
      assert lines[k..][1..] == lines[k + 1..];
      var stripped := Strip(lines[k]);
      if stripped == [] { continue; }
      total := total + 1;
      var ev := parse(stripped);
      if ev.None? { continue; }
      if ev.value.ts >= cutoff { kept := kept + [Record(ev.value.ts, stripped)]; }
    }
  }

  method SumSizes(s: seq<Record>) returns (n: nat)
    ensures n == RawSize(s)
  {
    n := 0;
    for k := 0 to |s|
      invariant n + RawSize(s[k..]) == RawSize(s)
    {
      assert s[k..][1..] == s[k + 1..];
      n := n + |s[k].text| + 1;
    }
  }

  // ---------------------------------------------------------------- what is kept

  predicate InTimeOrder(s: seq<Record>) {
    forall i, j :: 0 <= i < j < |s| ==> s[i].ts <= s[j].ts
  }

  /** The records of one instant, in order. */
  function At(s: seq<Record>, ts: real): seq<Record> {
    if s == [] then [] else (if s[0].ts == ts then [s[0]] else []) + At(s[1..], ts)
  }

  lemma {:induction false} InsertPermutes(r: Record, s: seq<Record>)
    ensures multiset(InsertByTs(r, s)) == multiset([r]) + multiset(s)
  {
    if !(s == [] || r.ts <= s[0].ts) {
      InsertPermutes(r, s[1..]);
      assert s == [s[0]] + s[1..];
    }
  }

  lemma {:induction false} InsertOrdered(r: Record, s: seq<Record>)
    requires InTimeOrder(s)
    ensures InTimeOrder(InsertByTs(r, s))
    ensures forall x :: x in InsertByTs(r, s) ==> x == r || x in s
  {
    if !(s == [] || r.ts <= s[0].ts) {
      InsertOrdered(r, s[1..]);
      var t := InsertByTs(r, s[1..]);
      forall i | 0 <= i < |t| ensures s[0].ts <= t[i].ts {
        if t[i] != r { assert t[i] in s[1..]; }
      }
    }
  }

  lemma {:induction false} InsertStable(r: Record, s: seq<Record>, ts: real)
    requires InTimeOrder(s)
    ensures At(InsertByTs(r, s), ts) == (if r.ts == ts then [r] else []) + At(s, ts)
  {
    if s == [] || r.ts <= s[0].ts {
    } else {
      InsertStable(r, s[1..], ts);
      Commute(if s[0].ts == ts then [s[0]] else [], if r.ts == ts then [r] else [], At(s[1..], ts));
    }
  }

  lemma Commute(a: seq<Record>, b: seq<Record>, rest: seq<Record>)
    requires a == [] || b == []
    ensures a + (b + rest) == b + (a + rest)
  {
  }

  /** SortByTs is the stable sort: a permutation, in time order, that keeps file order
      within each instant. */
  lemma {:induction false} SortSpec(s: seq<Record>, ts: real)
    ensures InTimeOrder(SortByTs(s))
    ensures multiset(SortByTs(s)) == multiset(s)
    ensures At(SortByTs(s), ts) == At(s, ts)
  {
    if s != [] {
      SortSpec(s[1..], ts);
      InsertPermutes(s[0], SortByTs(s[1..]));
      InsertOrdered(s[0], SortByTs(s[1..]));
      InsertStable(s[0], SortByTs(s[1..]), ts);
      assert s == [s[0]] + s[1..];
    }
  }

  lemma {:induction false} SortOfSorted(s: seq<Record>)
    requires InTimeOrder(s)
    ensures SortByTs(s) == s
  {
    if s != [] { SortOfSorted(s[1..]); }
  }

  /** Trimming keeps the longest suffix that fits. */
  lemma {:induction false} TrimSpec(s: seq<Record>, maxBytes: nat) returns (k: nat)
    ensures k <= |s| && Trim(s, maxBytes) == s[k..] && RawSize(s[k..]) <= maxBytes
    ensures forall j :: 0 <= j < k ==> RawSize(s[j..]) > maxBytes
  {
    if RawSize(s) > maxBytes && s != [] {
      k := TrimSpec(s[1..], maxBytes);
      forall j | 0 <= j < k + 1 ensures RawSize(s[j..]) > maxBytes {
        if j > 0 { assert s[j..] == s[1..][j - 1..]; }
      }
      assert s[1..][k..] == s[k + 1..];
      k := k + 1;
    } else {
      k := 0;
    }
  }

  /** What a compaction keeps: of the unexpired, parseable records in stable time order,
      exactly the longest suffix within the byte ceiling. */
  lemma CompactionKeepsNewest<D>(parse: Line -> Option<Event<D>>, archive: seq<byte>, cutoff: real,
        maxBytes: nat) returns (k: nat)
    ensures var all := SortByTs(Unexpired(parse, Split(archive), cutoff));
            && k <= |all| && Compacted(parse, archive, cutoff, maxBytes) == all[k..]
            && InTimeOrder(all) && multiset(all) == multiset(Unexpired(parse, Split(archive), cutoff))
            && RawSize(all[k..]) <= maxBytes
            && forall j :: 0 <= j < k ==> RawSize(all[j..]) > maxBytes
  {
    SortSpec(Unexpired(parse, Split(archive), cutoff), 0.0);
    k := TrimSpec(SortByTs(Unexpired(parse, Split(archive), cutoff)), maxBytes);
  }

  // ---------------------------------------------------------------- what is dropped

  lemma {:induction false} StripLeftParts(line: Line) returns (a: Line)
    ensures a + StripLeft(line) == line && forall k :: 0 <= k < |a| ==> IsSpace(a[k])
  {
    if line != [] && IsSpace(line[0]) {
      a := StripLeftParts(line[1..]);
      a := [line[0]] + a;
    } else {
      a := [];
    }
  }

  lemma {:induction false} StripRightParts(line: Line) returns (b: Line)
    ensures StripRight(line) + b == line && forall k :: 0 <= k < |b| ==> IsSpace(b[k])
  {
    if line != [] && IsSpace(line[|line| - 1]) {
      b := StripRightParts(line[..|line| - 1]);
      b := b + [line[|line| - 1]];
    } else {
      b := [];
    }
  }

  /** Stripping removes whitespace at both ends, all of it and nothing else. */
  lemma StripSpec(line: Line) returns (a: Line, b: Line)
    ensures a + Strip(line) + b == line
    ensures (forall k :: 0 <= k < |a| ==> IsSpace(a[k])) && forall k :: 0 <= k < |b| ==> IsSpace(b[k])
    ensures Strip(line) != [] ==> !IsSpace(Strip(line)[0]) && !IsSpace(Strip(line)[|Strip(line)| - 1])
  {
    a := StripLeftParts(line);
    b := StripRightParts(StripLeft(line));
    StripLeftSpec(line);
    StripRightSpec(StripLeft(line));
    assert a + Strip(line) + b == a + (Strip(line) + b);
  }

  /** A line with a record that has not expired. */
  predicate Lasts<D>(parse: Line -> Option<Event<D>>, line: Line, cutoff: real) {
    Strip(line) != [] && parse(Strip(line)).Some? && parse(Strip(line)).value.ts >= cutoff
  }

  /** The places of the lines that hold something, but no record that has not expired: those
      that are too old, and those that do not parse. */
  function Lost<D>(parse: Line -> Option<Event<D>>, lines: seq<Line>, first: nat, cutoff: real): set<nat> {
    set i: nat | first <= i < |lines| && Strip(lines[i]) != [] && !Lasts(parse, lines[i], cutoff)
  }

  predicate IsRecordOf<D>(parse: Line -> Option<Event<D>>, r: Record, line: Line) {
    r.text == Strip(line) && parse(r.text).Some? && r.ts == parse(r.text).value.ts
  }

  /** The unexpired records by their places in the file. */
  ghost predicate LastingAt<D>(parse: Line -> Option<Event<D>>, lines: seq<Line>, first: nat, cutoff: real,
        idx: seq<nat>, out: seq<Record>)
  {
    && |idx| == |out|
    && Increasing(idx)
    && (forall k :: 0 <= k < |idx| ==>
          idx[k] < |lines| && Lasts(parse, lines[idx[k]], cutoff) && IsRecordOf(parse, out[k], lines[idx[k]]))
    && (forall i: nat :: i in idx <==> first <= i < |lines| && Lasts(parse, lines[i], cutoff))
  }

  lemma {:induction false} UnexpiredPositions<D>(parse: Line -> Option<Event<D>>, lines: seq<Line>, first: nat,
        cutoff: real) returns (idx: seq<nat>)
    requires first <= |lines|
    ensures LastingAt(parse, lines, first, cutoff, idx, Unexpired(parse, lines[first..], cutoff))
    decreases |lines| - first
  {
    if first == |lines| {
      idx := [];
    } else {
      var later := UnexpiredPositions(parse, lines, first + 1, cutoff);
      assert lines[first..][1..] == lines[first + 1..];
      if Lasts(parse, lines[first], cutoff) {
        idx := [first] + later;
OneMoreLasts(parse, lines, first, cutoff, later, Unexpired(parse, lines[first + 1..], cutoff),
                     Unexpired(parse, lines[first..], cutoff)[0]);
      } else {
        idx := later;
      }
    }
  }

  lemma OneMoreLasts<D>(parse: Line -> Option<Event<D>>, lines: seq<Line>, first: nat, cutoff: real, idx: seq<nat>,
        out: seq<Record>, r: Record)
    requires first < |lines| && Lasts(parse, lines[first], cutoff) && IsRecordOf(parse, r, lines[first])
    requires LastingAt(parse, lines, first + 1, cutoff, idx, out)
    ensures LastingAt(parse, lines, first, cutoff, [first] + idx, [r] + out)
  {
    Increases(first, idx);
  }

  lemma {:induction false} LostCount<D>(parse: Line -> Option<Event<D>>, lines: seq<Line>, first: nat, cutoff: real)
    requires first <= |lines|
    ensures NonBlank(lines[first..]) == |Unexpired(parse, lines[first..], cutoff)| + |Lost(parse, lines, first, cutoff)|
    decreases |lines| - first
  {
    var lost := Lost(parse, lines, first, cutoff);
    if first == |lines| {
      assert lost == {};
    } else {
      assert lines[first..][1..] == lines[first + 1..];
      LostCount(parse, lines, first + 1, cutoff);
      var later := Lost(parse, lines, first + 1, cutoff);
      assert lost
        == if Strip(lines[first]) != [] && !Lasts(parse, lines[first], cutoff) then later + {first} else later;
    }
  }

  /** The answer of a compaction is the number of lines it removes: those too old, those that do
      not parse and those over the ceiling; blank lines do not count.  The archive is rewritten
      exactly if there are any. */
  lemma DroppedSpec<D>(parse: Line -> Option<Event<D>>, archive: seq<byte>, cutoff: real, maxBytes: nat)
    returns (k: nat)
    ensures var all := SortByTs(Unexpired(parse, Split(archive), cutoff));
            && k <= |all| && (forall j :: 0 <= j < k ==> RawSize(all[j..]) > maxBytes) && RawSize(all[k..]) <= maxBytes
            && Compaction(parse, archive, cutoff, maxBytes).0 == |Lost(parse, Split(archive), 0, cutoff)| + k
            && Compaction(parse, archive, cutoff, maxBytes).1
               == if Lost(parse, Split(archive), 0, cutoff) == {} && k == 0 then archive
                  else WrittenAll(Texts(all[k..]))
  {
    k := CompactionKeepsNewest(parse, archive, cutoff, maxBytes);
    var found := Unexpired(parse, Split(archive), cutoff);
    assert |multiset(SortByTs(found))| == |multiset(found)|;
    LostCount(parse, Split(archive), 0, cutoff);
    assert Split(archive)[0..] == Split(archive);
  }

  /** So a line that does not parse is counted, and gone from the archive: even when nothing
      has expired, the archive is rewritten. */
  lemma CorruptIsDropped<D>(parse: Line -> Option<Event<D>>, archive: seq<byte>, cutoff: real, maxBytes: nat, i: nat)
    requires i < |Split(archive)| && Strip(Split(archive)[i]) != [] && parse(Strip(Split(archive)[i])).None?
    ensures var c := Compaction(parse, archive, cutoff, maxBytes);
            && c.0 >= 1 && c.1 == WrittenAll(Texts(Compacted(parse, archive, cutoff, maxBytes)))
            && Lost(parse, Split(c.1), 0, cutoff) == {}
  {
    var k := DroppedSpec(parse, archive, cutoff, maxBytes);
    assert i in Lost(parse, Split(archive), 0, cutoff);
    CompactionIdempotent(parse, archive, cutoff, maxBytes);
    var none := DroppedSpec(parse, Compaction(parse, archive, cutoff, maxBytes).1, cutoff, maxBytes);
  }

  /** The ceiling is one on the bytes that are written. */
  lemma {:induction false} SizeIsWritten(s: seq<Record>)
    ensures |WrittenAll(Texts(s))| == RawSize(s)
  {
    if s != [] { SizeIsWritten(s[1..]); }
  }

  // ---------------------------------------------------------------- idempotence

  lemma {:induction false} StripLeftSpec(line: Line)
    ensures StripLeft(line) == [] || !IsSpace(StripLeft(line)[0])
    ensures OneLine(line) ==> OneLine(StripLeft(line))
  {
    if line != [] && IsSpace(line[0]) { StripLeftSpec(line[1..]); }
  }

  lemma {:induction false} StripRightSpec(line: Line)
    ensures StripRight(line) <= line
    ensures StripRight(line) == [] || !IsSpace(StripRight(line)[|StripRight(line)| - 1])
    ensures OneLine(line) ==> OneLine(StripRight(line))
  {
    if line != [] && IsSpace(line[|line| - 1]) { StripRightSpec(line[..|line| - 1]); }
  }

  lemma StripTwice(line: Line)
    ensures Strip(Strip(line)) == Strip(line)
    ensures OneLine(line) ==> OneLine(Strip(line))
  {
    StripLeftSpec(line);
    StripRightSpec(StripLeft(line));
  }

  /** A record as a compaction writes it. */
  ghost predicate Clean<D>(parse: Line -> Option<Event<D>>, r: Record, cutoff: real) {
    && OneLine(r.text) && r.text != [] && Strip(r.text) == r.text
    && parse(r.text).Some? && parse(r.text).value.ts == r.ts && r.ts >= cutoff
  }

  lemma {:induction false} SplitOneLines(s: seq<byte>)
    ensures forall i :: 0 <= i < |Split(s)| ==> OneLine(Split(s)[i])
  {
    if s != [] { SplitOneLines(s[1..]); }
  }

  lemma {:induction false} UnexpiredClean<D>(parse: Line -> Option<Event<D>>, lines: seq<Line>, cutoff: real)
    requires forall i :: 0 <= i < |lines| ==> OneLine(lines[i])
    ensures forall r :: r in Unexpired(parse, lines, cutoff) ==> Clean(parse, r, cutoff)
    ensures |Unexpired(parse, lines, cutoff)| <= NonBlank(lines)
  {
    if lines != [] {
      StripTwice(lines[0]);
      UnexpiredClean(parse, lines[1..], cutoff);
    }
  }

  lemma {:induction false} CleanAgain<D>(parse: Line -> Option<Event<D>>, s: seq<Record>, cutoff: real)
    requires forall r :: r in s ==> Clean(parse, r, cutoff)
    ensures Unexpired(parse, Texts(s) + [[]], cutoff) == s
    ensures NonBlank(Texts(s) + [[]]) == |s|
    ensures forall i :: 0 <= i < |Texts(s)| ==> OneLine(Texts(s)[i])
  {
    if s == [] {
      var blank: seq<Line> := [[]];
      assert Texts(s) + [[]] == blank && blank[1..] == [];
    } else {
      assert s[0] in s;
      CleanAgain(parse, s[1..], cutoff);
      assert (Texts(s) + [[]])[1..] == Texts(s[1..]) + [[]];
      assert (Texts(s) + [[]])[0] == s[0].text;
    }
  }

  /** Repeating a compaction with the same cutoff and ceiling drops nothing and changes
      nothing. */
  lemma CompactionIdempotent<D>(parse: Line -> Option<Event<D>>, archive: seq<byte>, cutoff: real, maxBytes: nat)
    ensures var first := Compaction(parse, archive, cutoff, maxBytes);
            && first.0 >= 0
            && Compaction(parse, first.1, cutoff, maxBytes) == (0, first.1)
  {
    var kept := Compacted(parse, archive, cutoff, maxBytes);
    KeptClean(parse, archive, cutoff, maxBytes);
    CleanAgain(parse, kept, cutoff);
    SplitWritten(Texts(kept));
    SortOfSorted(kept);
  }

  /** What a compaction keeps: records that it would keep again, in order and within the
      ceiling, and no more of them than lines. */
  lemma KeptClean<D>(parse: Line -> Option<Event<D>>, archive: seq<byte>, cutoff: real, maxBytes: nat)
    ensures var kept := Compacted(parse, archive, cutoff, maxBytes);
            && (forall r :: r in kept ==> Clean(parse, r, cutoff))
            && InTimeOrder(kept) && RawSize(kept) <= maxBytes && |kept| <= NonBlank(Split(archive))
  {
    var lines := Split(archive);
    var found := Unexpired(parse, lines, cutoff);
    SplitOneLines(archive);
    UnexpiredClean(parse, lines, cutoff);
    SortSpec(found, 0.0);
    var all := SortByTs(found);
    var k := TrimSpec(all, maxBytes);
    assert |multiset(all)| == |multiset(found)|;
    forall r | r in all[k..] ensures Clean(parse, r, cutoff) {
      assert r in all && r in multiset(all);
      assert r in found;
    }
  }
}
