/** Choosing and pinning cores (gb_cpu_pin.py): `one_per_core`, `cpu_mask` and
    `apply_to_cmd`. */
module CpuPin {
  import opened Basics
  import opened CpuList

  type Siblings = map<int, seq<int>>

  // ---------------------------------------------------------------- one per core

  /** The siblings of a CPU; one without an entry, or with an empty one, is alone. */
  function Core(siblings: Siblings, c: int): set<int> {
    if c in siblings && siblings[c] != [] then (set x | x in siblings[c]) else {c}
  }

  /** Insertion into a sorted list, keeping duplicates. */
  function InsertSorted(x: int, s: seq<int>): seq<int> {
    if s == [] || x <= s[0] then [x] + s else [s[0]] + InsertSorted(x, s[1..])
  }

  /** `sorted(xs)`. */
  function Sorted(xs: seq<int>): seq<int> {
    if xs == [] then [] else InsertSorted(xs[|xs| - 1], Sorted(xs[..|xs| - 1]))
  }

  predicate Rising(s: seq<int>) {
    forall i, j :: 0 <= i < j < |s| ==> s[i] <= s[j]
  }

  lemma {:induction false} InsertSortedSpec(x: int, s: seq<int>)
    requires Rising(s)
    ensures Rising(InsertSorted(x, s))
    ensures forall y :: y in InsertSorted(x, s) <==> y == x || y in s
  {
    if s != [] && x > s[0] {
      InsertSortedSpec(x, s[1..]);
      assert s == [s[0]] + s[1..];
      var rest := InsertSorted(x, s[1..]);
      forall j | 0 <= j < |rest| ensures s[0] <= rest[j] { assert rest[j] in rest; }
    }
  }

  lemma {:induction false} SortedSpec(xs: seq<int>)
    ensures Rising(Sorted(xs)) && forall y :: y in Sorted(xs) <==> y in xs
  {
    if xs != [] {
      var n := |xs| - 1;
      SortedSpec(xs[..n]);
      InsertSortedSpec(xs[n], Sorted(xs[..n]));
      assert xs == xs[..n] + [xs[n]];
    }
  }

  /** The scan: a CPU already taken is skipped, another takes its whole core. */
  function Scan(siblings: Siblings, s: seq<int>, taken: set<int>): seq<int> {
    if s == [] then []
    else if s[0] in taken then Scan(siblings, s[1..], taken)
    else [s[0]] + Scan(siblings, s[1..], taken + Core(siblings, s[0]))
  }

  /** `one_per_core`. */
  method OnePerCore(cpus: seq<int>, siblings: Siblings) returns (chosen: seq<int>)
    ensures chosen == Scan(siblings, Sorted(cpus), {})
  {
    var s := Sorted(cpus);
    chosen := [];
    var taken: set<int> := {};
    for k := 0 to |s|
      invariant chosen + Scan(siblings, s[k..], taken) == Scan(siblings, s, {})
    {
      assert s[k..][1..] == s[k + 1..];
      if s[k] !in taken {
        chosen := chosen + [s[k]];
        taken := taken + Core(siblings, s[k]);
      }
    }
  }

  lemma {:induction false} ScanWithin(siblings: Siblings, s: seq<int>, taken: set<int>)
    ensures forall c :: c in Scan(siblings, s, taken) ==> c in s
    decreases |s|
  {
    if s != [] {
      assert s == [s[0]] + s[1..];
      ScanWithin(siblings, s[1..], if s[0] in taken then taken else taken + Core(siblings, s[0]));
    }
  }

  /** No lower chosen CPU names this one. */
  ghost predicate Free(siblings: Siblings, chosen: seq<int>, c: int) {
    forall e :: e in chosen && e < c ==> c !in Core(siblings, e)
  }

  lemma {:induction false} ScanChosen(siblings: Siblings, s: seq<int>, taken: set<int>, c: int)
    requires Rising(s)
    ensures c in Scan(siblings, s, taken) <==> c in s && c !in taken && Free(siblings, Scan(siblings, s, taken), c)
    decreases |s|
  {
    if s != [] {
      var x, rest := s[0], s[1..];
      var next := if x in taken then taken else taken + Core(siblings, x);
      assert s == [x] + rest;
      ScanChosen(siblings, rest, next, c);
      ScanWithin(siblings, rest, next);
      forall e | e in rest ensures x <= e { var k :| 0 <= k < |rest| && rest[k] == e; assert s[k + 1] == e; }
      if x !in taken { ChosenFirst(siblings, x, rest, taken, Scan(siblings, rest, next), c); }
    }
  }

  /** With a CPU in front that takes its whole core. */
  lemma ChosenFirst(siblings: Siblings, x: int, rest: seq<int>, taken: set<int>, later: seq<int>, c: int)
    requires x !in taken && (forall e :: e in rest ==> x <= e) && forall e :: e in later ==> e in rest
    requires c in later <==> c in rest && c !in taken + Core(siblings, x) && Free(siblings, later, c)
    ensures c in [x] + later <==> c in [x] + rest && c !in taken && Free(siblings, [x] + later, c)
  {
    assert x in [x] + later;
    forall e | e in later ensures e in [x] + later {}
  }

  /** Whatever the sibling lists say: a CPU is chosen if and only if it is listed and no lower
      chosen CPU names it. */
  lemma ChosenSpec(cpus: seq<int>, siblings: Siblings, c: int)
    ensures var chosen := Scan(siblings, Sorted(cpus), {});
            c in chosen <==> c in cpus && Free(siblings, chosen, c)
  {
    SortedSpec(cpus);
    ScanChosen(siblings, Sorted(cpus), {}, c);
  }

  /** The sibling lists of these CPUs say who shares a core with whom. */
  predicate Cores(siblings: Siblings, cpus: seq<int>) {
    && (forall c :: c in cpus ==> c in Core(siblings, c))
    && forall c, d :: c in cpus && d in cpus && d in Core(siblings, c) ==> Core(siblings, d) == Core(siblings, c)
  }

  /** The lowest of the listed CPUs on its core. */
  predicate Lowest(siblings: Siblings, cpus: seq<int>, c: int) {
    c in cpus && forall d :: d in cpus && d in Core(siblings, c) ==> c <= d
  }

  /** What was taken is what shares a core with an earlier CPU. */
  ghost predicate TakenBy(siblings: Siblings, past: seq<int>, taken: set<int>, cpus: seq<int>) {
    forall x :: x in cpus ==> (x in taken <==> exists c :: c in past && x in Core(siblings, c))
  }

  lemma FirstOfCore(siblings: Siblings, cpus: seq<int>, past: seq<int>, s: seq<int>, taken: set<int>)
    requires Cores(siblings, cpus) && s != [] && Rising(past + s) && TakenBy(siblings, past, taken, cpus)
    requires forall y :: y in past + s <==> y in cpus
    ensures s[0] in cpus
    ensures s[0] !in taken ==> Lowest(siblings, cpus, s[0]) && s[0] !in past
    ensures s[0] in taken ==> s[0] in past || !Lowest(siblings, cpus, s[0])
  {
    var c, all := s[0], past + s;
    assert all[|past|] == c;
    assert c in all && c in cpus;
    if c !in taken {
      forall d | d in cpus && d in Core(siblings, c) ensures c <= d {
        assert Core(siblings, d) == Core(siblings, c);
        if d !in past { LaterIsHigher(past, s, d); }
      }
    } else {
      var e :| e in past && c in Core(siblings, e);
      assert e in all && e in cpus;
      assert Core(siblings, e) == Core(siblings, c);
      var i :| 0 <= i < |past| && past[i] == e;
      assert all[i] <= all[|past|];
    }
  }

  lemma LaterIsHigher(past: seq<int>, s: seq<int>, d: int)
    requires s != [] && Rising(past + s) && d in past + s && d !in past
    ensures s[0] <= d
  {
    var all := past + s;
    var i :| 0 <= i < |all| && all[i] == d;
    assert forall k :: 0 <= k < |past| ==> past[k] != d;
    assert all[|past|] == s[0];
  }

  /** The scan keeps exactly the lowest CPU of each core among those still to come, once. */
  lemma {:induction false} ScanSpec(siblings: Siblings, cpus: seq<int>, past: seq<int>, s: seq<int>, taken: set<int>)
    requires Cores(siblings, cpus) && Rising(past + s) && TakenBy(siblings, past, taken, cpus)
    requires forall y :: y in past + s <==> y in cpus
    ensures Ascending(Scan(siblings, s, taken))
    ensures forall c :: c in Scan(siblings, s, taken) <==> Lowest(siblings, cpus, c) && c !in past
    decreases |s|
  {
    if s == [] {
      assert past + s == past;
    } else {
      var c, rest := s[0], s[1..];
      var taken' := if c in taken then taken else taken + Core(siblings, c);
      assert past + s == (past + [c]) + rest;
      FirstOfCore(siblings, cpus, past, s, taken);
      forall y | y in past ensures y in cpus { assert y in past + s; }
      ScanSpec(siblings, cpus, past + [c], rest, taken');
      ScanOne(siblings, cpus, past, s, taken, Scan(siblings, rest, taken'));
    }
  }

  lemma ScanOne(siblings: Siblings, cpus: seq<int>, past: seq<int>, s: seq<int>, taken: set<int>, rest: seq<int>)
    requires s != [] && Rising(past + s) && Ascending(rest) && forall y :: y in past + s <==> y in cpus
    requires forall c :: c in rest <==> Lowest(siblings, cpus, c) && c !in past + [s[0]]
    requires s[0] !in taken ==> Lowest(siblings, cpus, s[0]) && s[0] !in past
    requires s[0] in taken ==> s[0] in past || !Lowest(siblings, cpus, s[0])
    ensures var r := if s[0] in taken then rest else [s[0]] + rest;
            Ascending(r) && forall c :: c in r <==> Lowest(siblings, cpus, c) && c !in past
  {
    forall e | e in past ensures e in past + [s[0]] {}
    if s[0] !in taken {
      forall j | 0 <= j < |rest| ensures s[0] < rest[j] {
        assert rest[j] in rest && rest[j] in past + s && s[0] in past + [s[0]];
        assert rest[j] !in past && rest[j] != s[0];
        LaterIsHigher(past, s, rest[j]);
      }
    }
    forall c ensures c in past + [s[0]] <==> c in past || c == s[0] {}
  }

  /** When the sibling lists describe cores, `one_per_core` picks exactly the lowest listed
      CPU of every core, in ascending order and without duplicates. */
  lemma OnePerCoreSpec(cpus: seq<int>, siblings: Siblings)
    requires Cores(siblings, cpus)
    ensures Ascending(Scan(siblings, Sorted(cpus), {}))
    ensures forall c :: c in Scan(siblings, Sorted(cpus), {}) <==> Lowest(siblings, cpus, c)
  {
    SortedSpec(cpus);
    var none: seq<int> := [];
    assert none + Sorted(cpus) == Sorted(cpus);
    ScanSpec(siblings, cpus, none, Sorted(cpus), {});
  }

  /** Some lower listed CPU is on this one's list of siblings ... */
  ghost predicate HasLower(siblings: Siblings, cpus: seq<int>, c: int) {
    exists d :: d in cpus && d < c && d in Core(siblings, c)
  }

  /** ... and this one on the list of a lower CPU that is the lowest of its own. */
  ghost predicate Claimed(siblings: Siblings, cpus: seq<int>, c: int) {
    exists e :: Lowest(siblings, cpus, e) && e < c && c in Core(siblings, e)
  }

  lemma {:induction false} LowestBelow(cpus: seq<int>, siblings: Siblings, s: seq<int>, n: nat)
    requires s == Sorted(cpus) && n <= |s|
    requires forall c :: c in cpus ==> (HasLower(siblings, cpus, c) <==> Claimed(siblings, cpus, c))
    ensures forall k :: 0 <= k < n ==> (s[k] in Scan(siblings, s, {}) <==> Lowest(siblings, cpus, s[k]))
  {
    if n > 0 {
      LowestBelow(cpus, siblings, s, n - 1);
      LowestNext(cpus, siblings, s, n - 1);
    }
  }

  lemma LowestNext(cpus: seq<int>, siblings: Siblings, s: seq<int>, n: nat)
    requires s == Sorted(cpus) && n < |s|
    requires s[n] in cpus ==> (HasLower(siblings, cpus, s[n]) <==> Claimed(siblings, cpus, s[n]))
    requires forall k :: 0 <= k < n ==> (s[k] in Scan(siblings, s, {}) <==> Lowest(siblings, cpus, s[k]))
    ensures s[n] in Scan(siblings, s, {}) <==> Lowest(siblings, cpus, s[n])
  {
    var c, chosen := s[n], Scan(siblings, s, {});
    SortedSpec(cpus);
    assert c in s;
    ScanWithin(siblings, s, {});
    forall e | e in cpus && e < c ensures e in chosen <==> Lowest(siblings, cpus, e) {
      var k :| 0 <= k < |s| && s[k] == e;
      assert k < n;
    }
    FreeIsUnclaimed(cpus, siblings, chosen, c);
    ChosenSpec(cpus, siblings, c);
  }

  lemma FreeIsUnclaimed(cpus: seq<int>, siblings: Siblings, chosen: seq<int>, c: int)
    requires forall e :: e in chosen ==> e in cpus
    requires forall e :: e in cpus && e < c ==> (e in chosen <==> Lowest(siblings, cpus, e))
    ensures Free(siblings, chosen, c) <==> !Claimed(siblings, cpus, c)
  {
  }

  /** Exactly when the chosen CPUs are the lowest of each core, whatever the lists say: for
      every listed CPU, it names a lower listed one if and only if the lowest of some core
      below it names it. */
  lemma LowestIff(cpus: seq<int>, siblings: Siblings)
    ensures (forall c :: c in Scan(siblings, Sorted(cpus), {}) <==> Lowest(siblings, cpus, c))
            <==> forall c :: c in cpus ==> (HasLower(siblings, cpus, c) <==> Claimed(siblings, cpus, c))
  {
    var s := Sorted(cpus);
    var chosen := Scan(siblings, s, {});
    SortedSpec(cpus);
    if forall c :: c in chosen <==> Lowest(siblings, cpus, c) {
      forall c | c in cpus ensures HasLower(siblings, cpus, c) <==> Claimed(siblings, cpus, c) {
        ChosenSpec(cpus, siblings, c);
        assert Lowest(siblings, cpus, c) <==> !HasLower(siblings, cpus, c);
      }
    }
    if forall c :: c in cpus ==> (HasLower(siblings, cpus, c) <==> Claimed(siblings, cpus, c)) {
      LowestBelow(cpus, siblings, s, |s|);
      ScanWithin(siblings, s, {});
      forall c ensures c in chosen <==> Lowest(siblings, cpus, c) {
        if c in cpus { var k :| 0 <= k < |s| && s[k] == c; }
      }
    }
  }

  /** Lists that contradict each other are taken as they come: here CPU 1 names CPU 0 as its
      sibling but not the other way round, and both are chosen. */
  lemma OneSidedSiblings()
    ensures var siblings: Siblings := map[0 := [0], 1 := [0, 1]];
            Scan(siblings, Sorted([0, 1]), {}) == [0, 1] && !Lowest(siblings, [0, 1], 1)
  {
    var siblings: Siblings := map[0 := [0], 1 := [0, 1]];
    assert [0, 1][..1] == [0] && [0][..0] == [];
    assert Sorted([0]) == [0];
    assert Sorted([0, 1]) == [0, 1];
    assert [0, 1][1..] == [1] && [1][1..] == [];
    assert 0 in Core(siblings, 1) && 0 in [0, 1];
    assert Core(siblings, 0) == {0};
    assert Scan(siblings, [1], {0}) == [1];
  }

  /** So every listed CPU shares a core with exactly one chosen CPU. */
  lemma OneChosenPerCpu(cpus: seq<int>, siblings: Siblings, c: int) returns (d: int)
    requires Cores(siblings, cpus) && c in cpus
    ensures d in Scan(siblings, Sorted(cpus), {}) && d in Core(siblings, c)
    ensures forall e :: e in Scan(siblings, Sorted(cpus), {}) && e in Core(siblings, c) ==> e == d
  {
    OnePerCoreSpec(cpus, siblings);
    d := LowestOf(cpus, siblings, c, |cpus|);
    assert Core(siblings, d) == Core(siblings, c);
  }

  lemma {:induction false} LowestOf(cpus: seq<int>, siblings: Siblings, c: int, n: nat) returns (d: int)
    requires n <= |cpus| && Cores(siblings, cpus) && c in cpus
    ensures d in cpus && d in Core(siblings, c)
    ensures forall k :: 0 <= k < n && cpus[k] in Core(siblings, c) ==> d <= cpus[k]
  {
    if n == 0 {
      d := c;
    } else {
      d := LowestOf(cpus, siblings, c, n - 1);
      if cpus[n - 1] in Core(siblings, c) && cpus[n - 1] < d { d := cpus[n - 1]; }
    }
  }

  // ---------------------------------------------------------------- the mask

  /** Bit k of m. */
  function Bit(m: nat, k: nat): bool {
    if k == 0 then m % 2 == 1 else Bit(m / 2, k - 1)
  }

  /** `m | (1 << k)`, bit by bit. */
  function SetBit(m: nat, k: nat): nat {
    if k == 0 then (if m % 2 == 1 then m else m + 1) else 2 * SetBit(m / 2, k - 1) + m % 2
  }

  function Pow2(k: nat): nat {
    if k == 0 then 1 else 2 * Pow2(k - 1)
  }

  lemma {:induction false} SetBitSpec(m: nat, k: nat, j: nat)
    ensures Bit(SetBit(m, k), j) <==> j == k || Bit(m, j)
    decreases k
  {
    if k > 0 && j > 0 {
      SetBitSpec(m / 2, k - 1, j - 1);
      assert SetBit(m, k) / 2 == SetBit(m / 2, k - 1);
    }
  }

  /** Setting a bit that is not set adds its power of two. */
  lemma {:induction false} SetBitAdds(m: nat, k: nat)
    ensures SetBit(m, k) == if Bit(m, k) then m else m + Pow2(k)
  {
    if k > 0 { SetBitAdds(m / 2, k - 1); }
  }

  predicate NoneNegative(cpus: seq<int>) {
    forall k :: 0 <= k < |cpus| ==> cpus[k] >= 0
  }

  function Mask(cpus: seq<int>): nat
    requires NoneNegative(cpus)
  {
    if cpus == [] then 0 else SetBit(Mask(cpus[..|cpus| - 1]), cpus[|cpus| - 1])
  }

  lemma {:induction false} ZeroBits(k: nat)
    ensures !Bit(0, k)
  {
    if k > 0 { ZeroBits(k - 1); }
  }

  /** The mask has exactly the bits of the CPUs. */
  lemma {:induction false} MaskSpec(cpus: seq<int>, k: nat)
    requires NoneNegative(cpus)
    ensures Bit(Mask(cpus), k) <==> k in cpus
  {
    if cpus == [] {
      ZeroBits(k);
    } else {
      var n := |cpus| - 1;
      MaskSpec(cpus[..n], k);
      SetBitSpec(Mask(cpus[..n]), cpus[n], k);
      assert cpus == cpus[..n] + [cpus[n]];
    }
  }

  /** The digits of `hex`. */
  function HexDigit(d: nat): (r: char)
    requires d < 16
    ensures '0' <= r <= '9' || 'a' <= r <= 'f'
  {
    if d < 10 then '0' + d as char else 'a' + (d - 10) as char
  }

  function HexDigits(m: nat): string {
    if m < 16 then [HexDigit(m)] else HexDigits(m / 16) + [HexDigit(m % 16)]
  }

  /** The digit that a character of a hexadecimal number stands for. */
  function DigitValue(c: char): nat {
    if '0' <= c <= '9' then (c - '0') as nat
    else if 'a' <= c <= 'f' then (c - 'a') as nat + 10
    else if 'A' <= c <= 'F' then (c - 'A') as nat + 10
    else 0
  }

  function HexValue(s: string): nat {
    if s == [] then 0 else 16 * HexValue(s[..|s| - 1]) + DigitValue(s[|s| - 1])
  }

  /** Hexadecimal digits read back, and no leading zero. */
  lemma {:induction false} HexRoundTrip(m: nat)
    ensures HexDigits(m) != [] && HexValue(HexDigits(m)) == m
    ensures m > 0 ==> HexDigits(m)[0] != '0'
  {
    var s := HexDigits(m);
    if m < 16 {
      assert s[..0] == [];
    } else {
      HexRoundTrip(m / 16);
      assert s[..|s| - 1] == HexDigits(m / 16);
    }
  }

  /** `cpu_mask`: a negative CPU is a ValueError; otherwise the text is a hexadecimal number
      that has exactly the bits of the CPUs. */
  method CpuMask(cpus: seq<int>) returns (text: Option<string>)
    ensures text.Some? <==> NoneNegative(cpus)
    ensures text.Some? ==> "0x" <= text.value && |text.value| > 2 && (text.value[2] == '0' ==> text.value == "0x0")
    ensures text.Some? ==> forall k: nat :: Bit(HexValue(text.value[2..]), k) <==> k in cpus
  {
    var m: nat := 0;
    for i := 0 to |cpus|
      invariant NoneNegative(cpus[..i]) && m == Mask(cpus[..i])
    {
      if cpus[i] < 0 { return None; }
      assert cpus[..i + 1][..i] == cpus[..i];
      m := SetBit(m, cpus[i]);
    }
    assert cpus[..|cpus|] == cpus;
    forall k: nat ensures Bit(m, k) <==> k in cpus { MaskSpec(cpus, k); }
    HexRoundTrip(m);
    text := Some("0x" + HexDigits(m));
    assert text.value[2..] == HexDigits(m);
  }

  // ---------------------------------------------------------------- the command

  const PINNED: seq<string> := ["-C", "--cpu-mask", "--cpu-strict", "-Cr", "--cpu-range"]

  predicate IsPinned(cmd: seq<string>) {
    exists k :: 0 <= k < |PINNED| && PINNED[k] in cmd
  }

  /** What `cpu_pin_args` gives when it pins. */
  function PinArgs(threads: string, mask: string): seq<string> {
    ["-t", threads, "-C", mask, "--cpu-strict", "1"]
  }

  /** The first place of a flag, or the length. */
  function Find(cmd: seq<string>, flag: string): (k: nat)
    ensures k <= |cmd| && (k < |cmd| ==> cmd[k] == flag)
    ensures k < |cmd| <==> flag in cmd
    ensures flag !in cmd[..k]
  {
    if cmd == [] || cmd[0] == flag then 0 else 1 + Find(cmd[1..], flag)
  }

  /** Where the thread count stands: after `--threads`, else after `-t`. */
  function ThreadFlag(cmd: seq<string>): nat {
    if "--threads" in cmd then Find(cmd, "--threads") else Find(cmd, "-t")
  }

  datatype Outcome = Done(pinned: bool) | IndexError

  /** A llama-server command, rewritten in place. */
  class Command {
    var args: seq<string>

    constructor (args: seq<string>)
      ensures this.args == args
    {
      this.args := args;
    }

    /** `apply_to_cmd`; `pin` is what `cpu_pin_args` returned. */
    method Apply(pin: seq<string>) returns (r: Outcome)
      requires pin == [] || exists n, m :: pin == PinArgs(n, m)
      modifies this
      ensures IsPinned(old(args)) || pin == [] ==> r == Done(false) && args == old(args)
      ensures !IsPinned(old(args)) && pin != [] ==>
                var at := ThreadFlag(old(args));
                if at >= |old(args)| then r == Done(true) && args == old(args) + pin
                else if at + 1 == |old(args)| then r == IndexError && args == old(args)
                else r == Done(true) && args == old(args)[at + 1 := pin[1]] + pin[2..]
    {
      if IsPinned(args) { return Done(false); }
      if pin == [] { return Done(false); }
      var at := ThreadFlag(args);
      if at < |args| {
        if at + 1 >= |args| { return IndexError; }
        args := args[at + 1 := pin[1]];
      } else {
        args := args + pin[..2];
        assert old(args) + pin[..2] + pin[2..] == old(args) + pin;
      }
      args := args + pin[2..];
      r := Done(true);
    }
  }

  /** The thread count is the one after the first "--threads", or, without that, after the first
      "-t"; and a command is left alone if it holds one of five flags. */
  lemma ThreadFlagSpec(cmd: seq<string>)
    ensures var at := ThreadFlag(cmd);
            && at <= |cmd| && (at < |cmd| <==> "--threads" in cmd || "-t" in cmd)
            && (at < |cmd| ==> cmd[at] == if "--threads" in cmd then "--threads" else "-t")
            && forall k :: 0 <= k < at && at < |cmd| ==> cmd[k] != cmd[at]
    ensures IsPinned(cmd)
            <==> "-C" in cmd || "--cpu-mask" in cmd || "--cpu-strict" in cmd || "-Cr" in cmd || "--cpu-range" in cmd
  {
    assert PINNED[0] == "-C" && PINNED[1] == "--cpu-mask" && PINNED[2] == "--cpu-strict";
    assert PINNED[3] == "-Cr" && PINNED[4] == "--cpu-range";
  }


  /** A command that has been pinned is left alone by the next call, whatever that call
      would pin. */
  lemma PinnedOnce(cmd: seq<string>, pin: seq<string>, n: string, m: string, at: nat)
    requires pin == PinArgs(n, m)
    ensures IsPinned(cmd + pin)
    ensures at + 1 < |cmd| ==> IsPinned(cmd[at + 1 := pin[1]] + pin[2..])
  {
    assert PINNED[0] == "-C" && pin[2] == "-C";
    assert (cmd + pin)[|cmd| + 2] == "-C";
    if at + 1 < |cmd| { assert (cmd[at + 1 := pin[1]] + pin[2..])[|cmd|] == "-C"; }
  }
}
