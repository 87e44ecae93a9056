/** The CPU list notation: `_cpulist` (gb_cluster.py) prints it, `parse_cpulist`
    (gb_cpu_pin.py) reads it. */
module CpuList {
  import opened Basics

  // ---------------------------------------------------------------- sorted sets

  predicate Ascending(s: seq<int>) {
    forall i, j :: 0 <= i < j < |s| ==> s[i] < s[j]
  }

  function Insert(x: int, s: seq<int>): seq<int> {
    if s == [] || x < s[0] then [x] + s
    else if x == s[0] then s
    else [s[0]] + Insert(x, s[1..])
  }

  /** `sorted(set(xs))`. */
  function SortedSet(xs: seq<int>): seq<int> {
    if xs == [] then [] else Insert(xs[|xs| - 1], SortedSet(xs[..|xs| - 1]))
  }

  lemma {:induction false} InsertSpec(x: int, s: seq<int>)
    requires Ascending(s)
    ensures Ascending(Insert(x, s))
    ensures forall y :: y in Insert(x, s) <==> y == x || y in s
  {
    if s != [] && x > s[0] {
      InsertSpec(x, s[1..]);
      var rest := Insert(x, s[1..]);
      assert s == [s[0]] + s[1..];
      forall j | 0 <= j < |rest| ensures s[0] < rest[j] { assert rest[j] in rest; }
    }
  }

  lemma {:induction false} SortedSetSpec(xs: seq<int>)
    ensures Ascending(SortedSet(xs)) && forall y :: y in SortedSet(xs) <==> y in xs
  {
    if xs != [] {
      var n := |xs| - 1;
      SortedSetSpec(xs[..n]);
      InsertSpec(xs[n], SortedSet(xs[..n]));
      assert xs == xs[..n] + [xs[n]];
    }
  }

  /** An ascending list is determined by its members. */
  lemma {:induction false} SameMembers(a: seq<int>, b: seq<int>)
    requires Ascending(a) && Ascending(b) && forall y :: y in a <==> y in b
    ensures a == b
  {
    if a == [] {
      if b != [] { var y := SomeMember(b); assert false; }
    } else {
      assert a[0] in b && b != [];
      assert b[0] in a;
      assert a[0] == b[0];
      forall y ensures y in a[1..] <==> y in b[1..] { TailMember(a, y); TailMember(b, y); }
      SameMembers(a[1..], b[1..]);
    }
  }

  lemma SomeMember(s: seq<int>) returns (y: int)
    requires s != []
    ensures y in s
  {
    y := s[0];
  }

  lemma TailMember(s: seq<int>, y: int)
    requires Ascending(s) && s != []
    ensures y in s[1..] <==> y in s && y != s[0]
  {
    assert s == [s[0]] + s[1..];
  }

  lemma SortedAlready(s: seq<int>)
    requires Ascending(s)
    ensures SortedSet(s) == s
  {
    SortedSetSpec(s);
    SameMembers(SortedSet(s), s);
  }

  // ---------------------------------------------------------------- runs

  /** A run lo..hi of consecutive CPUs. */
  datatype Span = Span(lo: int, hi: int)

  function Range(lo: int, hi: int): seq<int> {
    if lo > hi then [] else seq(hi - lo + 1, k => lo + k)
  }

  function Flat(spans: seq<Span>): seq<int> {
    if spans == [] then [] else Range(spans[0].lo, spans[0].hi) + Flat(spans[1..])
  }

  predicate Nonempty(spans: seq<Span>) {
    forall k :: 0 <= k < |spans| ==> spans[k].lo <= spans[k].hi
  }

  predicate Natural(spans: seq<Span>) {
    forall k :: 0 <= k < |spans| ==> spans[k].lo >= 0
  }

  /** Each run is nonempty and could not be longer: the next starts at least two later. */
  predicate Maximal(spans: seq<Span>) {
    && Nonempty(spans)
    && forall k :: 0 <= k < |spans| - 1 ==> spans[k].hi + 1 < spans[k + 1].lo
  }

  /** The runs found when `run` is open and `s` still to come. */
  function RunsFrom(run: Span, s: seq<int>): seq<Span>
    decreases |s|
  {
    if s == [] then [run]
    else if s[0] == run.hi + 1 then RunsFrom(Span(run.lo, s[0]), s[1..])
    else [run] + RunsFrom(Span(s[0], s[0]), s[1..])
  }

  function Runs(s: seq<int>): seq<Span> {
    if s == [] then [] else RunsFrom(Span(s[0], s[0]), s[1..])
  }

  lemma MaximalCons(run: Span, rest: seq<Span>)
    requires run.lo <= run.hi && Maximal(rest) && rest != [] && run.hi + 1 < rest[0].lo
    ensures Maximal([run] + rest)
  {
    forall k | 1 <= k < |rest| ensures ([run] + rest)[k].hi + 1 < ([run] + rest)[k + 1].lo {
      assert rest[k - 1].hi + 1 < rest[k - 1 + 1].lo;
    }
  }

  lemma RangeGrows(lo: int, hi: int, s: seq<int>)
    requires lo <= hi && s != [] && s[0] == hi + 1
    ensures Range(lo, hi + 1) + s[1..] == Range(lo, hi) + s
  {
  }

  lemma OneRange(s: seq<int>)
    requires s != []
    ensures Range(s[0], s[0]) + s[1..] == s
  {
  }

  lemma FlatCons(run: Span, rest: seq<Span>)
    ensures Flat([run] + rest) == Range(run.lo, run.hi) + Flat(rest)
  {
  }

  lemma {:induction false} RunsFromSpec(run: Span, s: seq<int>)
    requires run.lo <= run.hi && Ascending(s) && forall k :: 0 <= k < |s| ==> s[k] > run.hi
    ensures var r := RunsFrom(run, s);
            r != [] && r[0].lo == run.lo && Maximal(r) && Flat(r) == Range(run.lo, run.hi) + s
    decreases |s|
  {
    if s == [] {
      FlatCons(run, []);
      assert [run] + [] == [run];
    } else if s[0] == run.hi + 1 {
      RunsFromSpec(Span(run.lo, s[0]), s[1..]);
      RangeGrows(run.lo, run.hi, s);
    } else {
      var rest := RunsFrom(Span(s[0], s[0]), s[1..]);
      RunsFromSpec(Span(s[0], s[0]), s[1..]);
      MaximalCons(run, rest);
      OneRange(s);
      FlatCons(run, rest);
    }
  }

  /** The runs of an ascending list are maximal, and together they are the list. */
  lemma RunsSpec(s: seq<int>)
    requires Ascending(s)
    ensures Maximal(Runs(s)) && Flat(Runs(s)) == s
  {
    if s != [] {
      RunsFromSpec(Span(s[0], s[0]), s[1..]);
      OneRange(s);
    }
  }

  // ---------------------------------------------------------------- numbers

  function Digit(d: nat): char
    requires d < 10
  {
    '0' + d as char
  }

  /** `str` of a natural number, and of any. */
  function Str(n: nat): string {
    if n < 10 then [Digit(n)] else Str(n / 10) + [Digit(n % 10)]
  }

  function IntStr(n: int): string {
    if n < 0 then ['-'] + Str(-n) else Str(n)
  }

  predicate IsDigit(c: char) {
    '0' <= c <= '9'
  }

  predicate AllDigits(s: string) {
    forall k :: 0 <= k < |s| ==> IsDigit(s[k])
  }

  predicate DigitsOrBars(s: string) {
    forall k :: 0 <= k < |s| ==> IsDigit(s[k]) || s[k] == '_'
  }

  /** Digits, with single underscores allowed between them. */
  predicate Numeral(s: string) {
    && s != [] && DigitsOrBars(s) && s[0] != '_' && s[|s| - 1] != '_'
    && forall k :: 0 <= k < |s| - 1 ==> !(s[k] == '_' && s[k + 1] == '_')
  }

  function Value(s: string): nat
    requires DigitsOrBars(s)
  {
    if s == [] then 0
    else if s[|s| - 1] == '_' then Value(s[..|s| - 1])
    else 10 * Value(s[..|s| - 1]) + (s[|s| - 1] - '0') as nat
  }

  /** `int` of a text: a numeral with an optional sign and optional blanks around it; None is
      the ValueError. */
  function ToInt(s: string): Option<int> {
    var t := Strip(s);
    var signed := t != [] && (t[0] == '+' || t[0] == '-');
    var body := if signed then t[1..] else t;
    if !Numeral(body) then None
    else
      var v: int := Value(body);
      Some(if signed && t[0] == '-' then -v else v)
  }

  lemma {:induction false} StrSpec(n: nat)
    ensures Str(n) != [] && AllDigits(Str(n)) && Value(Str(n)) == n
  {
    if n < 10 {
      assert Str(n)[..0] == [];
    } else {
      StrSpec(n / 10);
      assert Str(n)[..|Str(n)| - 1] == Str(n / 10);
    }
  }

  // ---------------------------------------------------------------- strings

  /** The ASCII characters that `strip` takes for blanks. */
  predicate IsBlank(c: char) {
    c == ' ' || 9 <= c as int <= 13 || 28 <= c as int <= 31
  }

  /** `strip()`. */
  function Strip(s: string): string
    decreases |s|
  {
    if s != [] && IsBlank(s[0]) then Strip(s[1..])
    else if s != [] && IsBlank(s[|s| - 1]) then Strip(s[..|s| - 1])
    else s
  }

  /** `split(",")`. */
  function Split(s: string): (r: seq<string>)
    ensures r != []
  {
    if s == [] then [[]]
    else
      var rest := Split(s[1..]);
      if s[0] == ',' then [[]] + rest else [[s[0]] + rest[0]] + rest[1..]
  }

  /** `",".join`. */
  function Join(parts: seq<string>): string {
    if parts == [] then [] else if |parts| == 1 then parts[0] else parts[0] + [','] + Join(parts[1..])
  }

  lemma {:induction false} SplitPart(part: string, rest: string)
    requires ',' !in part
    ensures Split(part) == [part]
    ensures Split(part + [','] + rest) == [part] + Split(rest)
  {
    var s := part + [','] + rest;
    if part == [] {
      assert s[1..] == rest;
    } else {
      SplitPart(part[1..], rest);
      assert s[1..] == part[1..] + [','] + rest;
      assert part == [part[0]] + part[1..];
    }
  }

  lemma {:induction false} SplitJoin(parts: seq<string>)
    requires parts != [] && forall k :: 0 <= k < |parts| ==> ',' !in parts[k]
    ensures Split(Join(parts)) == parts
  {
    SplitPart(parts[0], Join(parts[1..]));
    if |parts| > 1 { SplitJoin(parts[1..]); }
  }

  /** `partition("-")`: what precedes the first dash, and what follows it. */
  function BeforeDash(s: string): string {
    if s == [] || s[0] == '-' then [] else [s[0]] + BeforeDash(s[1..])
  }

  function AfterDash(s: string): string {
    if s == [] then [] else if s[0] == '-' then s[1..] else AfterDash(s[1..])
  }

  lemma {:induction false} PartitionSpec(a: string, b: string)
    requires '-' !in a
    ensures BeforeDash(a) == a && AfterDash(a) == []
    ensures BeforeDash(a + ['-'] + b) == a && AfterDash(a + ['-'] + b) == b
  {
    if a == [] {
      assert (['-'] + b)[1..] == b;
      assert a + ['-'] + b == ['-'] + b;
    } else {
      PartitionSpec(a[1..], b);
      assert (a + ['-'] + b)[1..] == a[1..] + ['-'] + b;
      assert a == [a[0]] + a[1..];
    }
  }

  // ---------------------------------------------------------------- printing

  function Show(span: Span): string {
    if span.hi > span.lo then IntStr(span.lo) + ['-'] + IntStr(span.hi) else IntStr(span.lo)
  }

  function ShowAll(spans: seq<Span>): seq<string> {
    seq(|spans|, k requires 0 <= k < |spans| => Show(spans[k]))
  }

  // ---------------------------------------------------------------- parsing

  /** One comma-separated part; a blank one gives nothing. */
  function Part(part: string): Option<seq<int>> {
    var p := Strip(part);
    if p == [] then Some([])
    else
      var a, b := BeforeDash(p), AfterDash(p);
      var lo, hi := ToInt(a), ToInt(if b != [] then b else a);
      if lo.Some? && hi.Some? then Some(Range(lo.value, hi.value)) else None
  }

  function Parts(parts: seq<string>): Option<seq<int>> {
    if parts == [] then Some([])
    else Both(Part(parts[0]), Parts(parts[1..]))
  }

  function Both(a: Option<seq<int>>, b: Option<seq<int>>): Option<seq<int>> {
    if a.Some? && b.Some? then Some(a.value + b.value) else None
  }

  lemma BothUnit(a: Option<seq<int>>)
    ensures Both(Some([]), a) == a
  {
    if a.Some? { assert [] + a.value == a.value; }
  }

  lemma BothAssociative(a: seq<int>, b: seq<int>, c: Option<seq<int>>)
    ensures Both(Some(a), Both(Some(b), c)) == Both(Some(a + b), c)
  {
    if c.Some? { assert a + (b + c.value) == (a + b) + c.value; }
  }

  function Parse(text: string): Option<seq<int>> {
    var all := Parts(Split(Strip(text)));
    if all.Some? then Some(SortedSet(all.value)) else None
  }

  // ---------------------------------------------------------------- round trip

  lemma NoBlanks(s: string)
    requires s == [] || (!IsBlank(s[0]) && !IsBlank(s[|s| - 1]))
    ensures Strip(s) == s
  {
  }

  lemma NumberText(n: nat)
    ensures ToInt(Str(n)) == Some(n) && ',' !in Str(n) && '-' !in Str(n)
  {
    StrSpec(n);
    NoBlanks(Str(n));
    assert IsDigit(Str(n)[0]) && Numeral(Str(n));
  }

  /** What a printed number starts and ends with. */
  lemma IntStrEnds(n: int)
    ensures var t := IntStr(n); t != [] && ',' !in t && !IsBlank(t[0]) && IsDigit(t[|t| - 1])
    ensures IntStr(n)[0] == '-' <==> n < 0
  {
    StrSpec(Abs(n));
    NumberText(Abs(n));
  }

  lemma ShowSpec(span: Span)
    ensures ShowOk(Show(span)) && (Show(span)[0] == '-' <==> span.lo < 0)
  {
    IntStrEnds(span.lo);
    IntStrEnds(span.hi);
  }

  lemma PartOfNumber(n: nat)
    ensures Part(Str(n)) == Some(Range(n, n))
  {
    StrSpec(n);
    NumberText(n);
    NoBlanks(Str(n));
    PartitionSpec(Str(n), []);
  }

  lemma PartOfRange(lo: nat, hi: nat)
    ensures Part(Str(lo) + ['-'] + Str(hi)) == Some(Range(lo, hi))
  {
    StrSpec(lo);
    StrSpec(hi);
    NumberText(lo);
    NumberText(hi);
    NoBlanks(Str(lo) + ['-'] + Str(hi));
    PartitionSpec(Str(lo), Str(hi));
  }

  lemma PartOfShow(span: Span)
    requires 0 <= span.lo <= span.hi
    ensures Part(Show(span)) == Some(Range(span.lo, span.hi))
  {
    if span.hi > span.lo { PartOfRange(span.lo, span.hi); } else { PartOfNumber(span.lo); }
  }

  lemma {:induction false} PartsOfShow(spans: seq<Span>)
    requires Nonempty(spans) && Natural(spans)
    ensures Parts(ShowAll(spans)) == Some(Flat(spans))
  {
    if spans != [] {
      PartOfShow(spans[0]);
      assert ShowAll(spans)[1..] == ShowAll(spans[1..]);
      PartsOfShow(spans[1..]);
    }
  }

  predicate ShowOk(s: string) {
    s != [] && ',' !in s && !IsBlank(s[0]) && !IsBlank(s[|s| - 1])
  }

  predicate AllOk(parts: seq<string>) {
    forall k :: 0 <= k < |parts| ==> ShowOk(parts[k])
  }

  lemma {:induction false} JoinEnds(parts: seq<string>)
    requires parts != [] && AllOk(parts)
    ensures var text := Join(parts);
            text != [] && text[0] == parts[0][0] && !IsBlank(text[0]) && !IsBlank(text[|text| - 1])
  {
    if |parts| > 1 { JoinEnds(parts[1..]); }
  }

  lemma ParseOfBlank()
    ensures Parse([]) == Some([])
  {
    var blank: seq<string> := [[]];
    assert Split([]) == blank;
    assert blank[1..] == [];
    BothUnit(Parts(blank[1..]));
  }

  lemma ParseOfParts(parts: seq<string>)
    requires parts != [] && AllOk(parts)
    ensures Split(Strip(Join(parts))) == parts
  {
    JoinEnds(parts);
    NoBlanks(Join(parts));
    SplitJoin(parts);
  }

  lemma ShowAllOk(spans: seq<Span>)
    ensures AllOk(ShowAll(spans))
  {
    forall k | 0 <= k < |spans| ensures ShowOk(ShowAll(spans)[k]) { ShowSpec(spans[k]); }
  }

  lemma ParseOfShow(spans: seq<Span>)
    requires Nonempty(spans) && Natural(spans)
    ensures Parse(Join(ShowAll(spans))) == Some(SortedSet(Flat(spans)))
  {
    if spans == [] {
      ParseOfBlank();
    } else {
      ShowAllOk(spans);
      ParseOfParts(ShowAll(spans));
      PartsOfShow(spans);
    }
  }

  /** A part that starts with a dash has no number before it. */
  lemma PartOfNegative(p: string)
    requires ShowOk(p) && p[0] == '-'
    ensures Part(p).None?
  {
    NoBlanks(p);
    assert BeforeDash(p) == [];
  }

  lemma ParseOfNegative(spans: seq<Span>)
    requires spans != [] && spans[0].lo < 0
    ensures Parse(Join(ShowAll(spans))).None?
  {
    ShowAllOk(spans);
    ParseOfParts(ShowAll(spans));
    ShowSpec(spans[0]);
    PartOfNegative(ShowAll(spans)[0]);
  }

  /** Every printed range is a maximal run of the sorted set of the CPUs, and reading what was
      printed gives that set back if and only if no number is negative; with a negative one
      it is a ValueError. */
  lemma RoundTrip(cpus: seq<int>)
    ensures Maximal(Runs(SortedSet(cpus))) && Flat(Runs(SortedSet(cpus))) == SortedSet(cpus)
    ensures Parse(Join(ShowAll(Runs(SortedSet(cpus)))))
            == if forall k :: 0 <= k < |cpus| ==> cpus[k] >= 0 then Some(SortedSet(cpus)) else None
  {
    var s := SortedSet(cpus);
    SortedSetSpec(cpus);
    RunsSpec(s);
    SortedAlready(s);
    RunsStart(s);
    if forall k :: 0 <= k < |cpus| ==> cpus[k] >= 0 {
      if s != [] { assert s[0] in cpus; }
      ParseOfShow(Runs(s));
    } else {
      var k :| 0 <= k < |cpus| && cpus[k] < 0;
      assert cpus[k] in s;
      ParseOfNegative(Runs(s));
    }
  }

  /** The first run starts at the least element. */
  lemma RunsStart(s: seq<int>)
    requires Ascending(s)
    ensures s != [] ==> Runs(s) != [] && Runs(s)[0].lo == s[0]
    ensures s != [] && s[0] >= 0 ==> Natural(Runs(s))
  {
    RunsSpec(s);
    if s != [] {
      RunsFromSpec(Span(s[0], s[0]), s[1..]);
      MaximalRises(Runs(s), |Runs(s)|);
    }
  }

  lemma {:induction false} MaximalRises(spans: seq<Span>, n: nat)
    requires Maximal(spans) && n <= |spans|
    ensures forall k :: 0 <= k < n ==> spans[0].lo <= spans[k].lo
  {
    if n > 1 {
      MaximalRises(spans, n - 1);
      assert spans[n - 2].hi + 1 < spans[n - 2 + 1].lo;
    }
  }

  /** Whatever is read is ascending and free of duplicates. */
  lemma ParseAscending(text: string)
    requires Parse(text).Some?
    ensures Ascending(Parse(text).value)
  {
    SortedSetSpec(Parts(Split(Strip(text))).value);
  }

  lemma {:induction false} FlatMembers(spans: seq<Span>, x: int)
    ensures x in Flat(spans) <==> exists k :: 0 <= k < |spans| && spans[k].lo <= x <= spans[k].hi
  {
    if spans != [] {
      var rest := spans[1..];
      FlatMembers(rest, x);
      RangeMembers(spans[0].lo, spans[0].hi, x);
      assert forall k :: 0 <= k < |rest| ==> rest[k] == spans[k + 1];
      if x in Flat(spans) && !(spans[0].lo <= x <= spans[0].hi) {
        var k :| 0 <= k < |rest| && rest[k].lo <= x <= rest[k].hi;
        assert spans[k + 1].lo <= x <= spans[k + 1].hi;
      }
    }
  }

  lemma RangeMembers(lo: int, hi: int, x: int)
    ensures x in Range(lo, hi) <==> lo <= x <= hi
  {
    if lo <= x <= hi { assert Range(lo, hi)[x - lo] == x; }
  }

  /** Ranges in any order, overlapping or not, are read as the set of the CPUs in them. */
  lemma ParseAnyRanges(spans: seq<Span>, x: int)
    requires spans != [] && Nonempty(spans) && Natural(spans)
    ensures var r := Parse(Join(ShowAll(spans)));
            && r.Some? && Ascending(r.value)
            && (x in r.value <==> exists k :: 0 <= k < |spans| && spans[k].lo <= x <= spans[k].hi)
  {
    ParseOfShow(spans);
    SortedSetSpec(Flat(spans));
    FlatMembers(spans, x);
  }

  predicate AllBlank(s: string) {
    forall k :: 0 <= k < |s| ==> IsBlank(s[k])
  }

  lemma {:induction false} StripPadded(a: string, s: string, b: string)
    requires AllBlank(a) && AllBlank(b)
    ensures Strip(a + s + b) == Strip(s)
    decreases |a| + |s| + |b|
  {
    var t := a + s + b;
    if a != [] {
      assert t[1..] == a[1..] + s + b;
      StripPadded(a[1..], s, b);
    } else if b == [] {
      assert t == s;
    } else if s != [] && IsBlank(s[0]) {
      assert t[1..] == [] + s[1..] + b;
      StripPadded([], s[1..], b);
    } else if s != [] {
      assert t[..|t| - 1] == [] + s + b[..|b| - 1];
      StripPadded([], s, b[..|b| - 1]);
    } else {
      assert t[1..] == [] + s + b[1..];
      StripPadded([], s, b[1..]);
    }
  }

  /** Blanks around the text, or around a part of it, make no difference. */
  lemma BlanksIgnored(a: string, s: string, b: string)
    requires AllBlank(a) && AllBlank(b)
    ensures Parse(a + s + b) == Parse(s) && Part(a + s + b) == Part(s)
  {
    StripPadded(a, s, b);
  }

  // ---------------------------------------------------------------- the two loops

  /** The open run of the printing loop: consecutive CPUs. */
  predicate Consecutive(run: seq<int>) {
    run != [] && run[0] <= run[|run| - 1] && run == Range(run[0], run[|run| - 1])
  }

  function SpanOf(run: seq<int>): Span
    requires run != []
  {
    Span(run[0], run[|run| - 1])
  }

  function ShowRun(run: seq<int>): (text: string)
    requires Consecutive(run)
    ensures text == Show(SpanOf(run))
  {
    if |run| > 1 then IntStr(run[0]) + ['-'] + IntStr(run[|run| - 1]) else IntStr(run[0])
  }

  lemma Grows(run: seq<int>, c: int)
    requires Consecutive(run) && c == run[|run| - 1] + 1
    ensures Consecutive(run + [c]) && SpanOf(run + [c]) == Span(run[0], c)
  {
    assert Range(run[0], c) == Range(run[0], c - 1) + [c];
  }

  lemma ShowAppend(done: seq<Span>, span: Span)
    requires Maximal(done + [span])
    ensures Maximal(done)
    ensures ShowAll(done + [span]) == ShowAll(done) + [Show(span)]
  {
    assert forall k :: 0 <= k < |done| ==> (done + [span])[k] == done[k];
    assert (done + [span])[|done|] == span;
  }

  /** Where the printing loop stands: `done` is printed, `run` is open. */
  ghost predicate Printing(all: seq<Span>, done: seq<Span>, out: seq<string>, run: seq<int>, rest: seq<int>) {
    && Maximal(all) && Maximal(done) && out == ShowAll(done)
    && Consecutive(run) && done + RunsFrom(SpanOf(run), rest) == all
  }

  lemma PrintStep(all: seq<Span>, done: seq<Span>, out: seq<string>, run: seq<int>, rest: seq<int>)
    requires Printing(all, done, out, run, rest) && rest != []
    ensures if rest[0] == run[|run| - 1] + 1 then Printing(all, done, out, run + [rest[0]], rest[1..])
            else Printing(all, done + [SpanOf(run)], out + [ShowRun(run)], [rest[0]], rest[1..])
  {
    if rest[0] == run[|run| - 1] + 1 {
      Grows(run, rest[0]);
    } else {
      NextDone(done, SpanOf(run), RunsFrom(Span(rest[0], rest[0]), rest[1..]), all);
      ShowAppend(done, SpanOf(run));
      assert [rest[0]] == Range(rest[0], rest[0]);
    }
  }

  lemma PrintEnd(all: seq<Span>, done: seq<Span>, out: seq<string>, run: seq<int>)
    requires Printing(all, done, out, run, [])
    ensures out + [ShowRun(run)] == ShowAll(all)
  {
    ShowAppend(done, SpanOf(run));
  }

  lemma PrintBegin(all: seq<int>)
    requires all != [] && Maximal(Runs(all))
    ensures Printing(Runs(all), [], [], [all[0]], all[1..])
  {
    assert [all[0]] == Range(all[0], all[0]);
    assert [] + Runs(all) == Runs(all);
    assert ShowAll([]) == [];
  }

  /** `_cpulist`. */
  method Print(cpus: seq<int>) returns (text: string)
    ensures Maximal(Runs(SortedSet(cpus))) && Flat(Runs(SortedSet(cpus))) == SortedSet(cpus)
    ensures text == Join(ShowAll(Runs(SortedSet(cpus))))
  {
    var sorted := SortedSet(cpus);
    RoundTrip(cpus);
    SortedSetSpec(cpus);
    var out: seq<string>, run: seq<int> := [], [];
    ghost var done: seq<Span> := [];
    for k := 0 to |sorted|
      invariant k == 0 ==> run == [] && out == [] && done == []
      invariant k > 0 ==> Printing(Runs(sorted), done, out, run, sorted[k..])
    {
      var c := sorted[k];
      assert c in cpus;
      assert sorted[k..][0] == c && sorted[k..][1..] == sorted[k + 1..];
      if run == [] { PrintBegin(sorted); } else { PrintStep(Runs(sorted), done, out, run, sorted[k..]); }
      if run != [] && c == run[|run| - 1] + 1 {
        run := run + [c];
      } else {
        if run != [] {
          done := done + [SpanOf(run)];
          out := out + [ShowRun(run)];
        }
        run := [c];
      }
    }
    if run != [] {
      assert sorted[|sorted|..] == [];
      PrintEnd(Runs(sorted), done, out, run);
      out := out + [ShowRun(run)];
    }
    text := Join(out);
  }

  lemma NextDone(done: seq<Span>, span: Span, rest: seq<Span>, all: seq<Span>)
    requires done + ([span] + rest) == all && Maximal(all)
    ensures (done + [span]) + rest == all && Maximal(done + [span])
  {
    assert forall k :: 0 <= k < |done + [span]| ==> (done + [span])[k] == all[k];
  }

  lemma ReadStep(out: seq<int>, parts: seq<string>, k: nat)
    requires k < |parts|
    ensures Both(Some(out), Parts(parts[k..]))
            == if Part(parts[k]).Some? then Both(Some(out + Part(parts[k]).value), Parts(parts[k + 1..])) else None
  {
    assert parts[k..][1..] == parts[k + 1..];
    if Part(parts[k]).Some? { BothAssociative(out, Part(parts[k]).value, Parts(parts[k + 1..])); }
  }

  /** `parse_cpulist`; None is the ValueError. */
  method Read(text: string) returns (r: Option<seq<int>>)
    ensures r == Parse(text)
  {
    var parts := Split(Strip(text));
    var out: seq<int> := [];
    assert parts[0..] == parts;
    BothUnit(Parts(parts));
    for k := 0 to |parts|
      invariant Parts(parts) == Both(Some(out), Parts(parts[k..]))
    {
      ReadStep(out, parts, k);
      assert out + [] == out;
      var part := Strip(parts[k]);
      if part != [] {
        var a, b := BeforeDash(part), AfterDash(part);
        var lo, hi := ToInt(a), ToInt(if b != [] then b else a);
        if lo.None? || hi.None? { return None; }
        out := out + Range(lo.value, hi.value);
      }
    }
    assert out + [] == out;
    r := Some(SortedSet(out));
  }
}
