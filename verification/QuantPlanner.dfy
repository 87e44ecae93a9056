/** `plan_from_source` (gb_gguf_plan.py) as the source runs it: group the tensors by role,
    walk the roles, collect the overrides.  The role of a tensor name is a parameter. */
module QuantPlanner {
  import opened Basics
  import opened QuantPlan

  datatype Tensor = Tensor(name: string, bytes: nat)

  datatype Plan = Plan(tensorTypes: map<string, string>, roleBytes: seq<(string, real)>,
                       estimatedBytes: int, budgetBytes: int, fitsBudget: bool)

  // ---------------------------------------------------------------- grouping

  function InRole(inv: seq<Tensor>, roleOf: string -> string, role: string): seq<Tensor> {
    if inv == [] then []
    else
      var n := |inv| - 1;
      InRole(inv[..n], roleOf, role) + if roleOf(inv[n].name) == role then [inv[n]] else []
  }

  function Bytes(ts: seq<Tensor>): nat {
    if ts == [] then 0 else Bytes(ts[..|ts| - 1]) + ts[|ts| - 1].bytes
  }

  /** The bytes of the tensors whose role is not in the priority list. */
  function FixedBytes(inv: seq<Tensor>, roleOf: string -> string, priority: seq<string>): nat {
    if inv == [] then 0
    else
      var n := |inv| - 1;
      FixedBytes(inv[..n], roleOf, priority) + if roleOf(inv[n].name) in priority then 0 else inv[n].bytes
  }

  /** The same bytes summed role by role. */
  function FixedOver(inv: seq<Tensor>, roleOf: string -> string, priority: seq<string>, roles: seq<string>): nat {
    if roles == [] then 0
    else
      var n := |roles| - 1;
      FixedOver(inv, roleOf, priority, roles[..n])
      + if roles[n] in priority then 0 else Bytes(InRole(inv, roleOf, roles[n]))
  }

  function Present(inv: seq<Tensor>, roleOf: string -> string, priority: seq<string>): seq<string> {
    if priority == [] then []
    else
      var rest := Present(inv, roleOf, priority[1..]);
      if InRole(inv, roleOf, priority[0]) != [] then [priority[0]] + rest else rest
  }

  function SourceSizes(inv: seq<Tensor>, roleOf: string -> string, roles: seq<string>): seq<real> {
    seq(|roles|, k requires 0 <= k < |roles| => Bytes(InRole(inv, roleOf, roles[k])) as real / GIB)
  }

  predicate Distinct(s: seq<string>) {
    forall i, j :: 0 <= i < j < |s| ==> s[i] != s[j]
  }

  lemma {:induction false} PresentSpec(inv: seq<Tensor>, roleOf: string -> string, priority: seq<string>)
    requires Distinct(priority)
    ensures Distinct(Present(inv, roleOf, priority))
    ensures forall r :: r in Present(inv, roleOf, priority) ==> r in priority
  {
    if priority != [] {
      DistinctTail(priority);
      PresentSpec(inv, roleOf, priority[1..]);
    }
  }

  lemma DistinctTail(s: seq<string>)
    requires s != [] && Distinct(s)
    ensures Distinct(s[1..]) && s[0] !in s[1..]
  {
    forall j | 0 <= j < |s| - 1 ensures s[1..][j] == s[j + 1] != s[0] {}
  }

  ghost predicate Grouped(byRole: map<string, seq<Tensor>>, order: seq<string>, inv: seq<Tensor>,
        roleOf: string -> string) {
    && Distinct(order) && (forall r :: r in order <==> r in byRole)
    && (forall r :: r in byRole ==> byRole[r] == InRole(inv, roleOf, r))
    && (forall k :: 0 <= k < |inv| ==> roleOf(inv[k].name) in byRole)
  }

  /** Adding the next tensor to its group. */
  lemma GroupedStep(byRole: map<string, seq<Tensor>>, order: seq<string>, inv: seq<Tensor>, t: Tensor,
        roleOf: string -> string)
    requires Grouped(byRole, order, inv, roleOf)
    ensures var role := roleOf(t.name);
            var group := if role in byRole then byRole[role] else [];
            Grouped(byRole[role := group + [t]], if role in byRole then order else order + [role], inv + [t], roleOf)
  {
    var role := roleOf(t.name);
    var group := if role in byRole then byRole[role] else [];
    var byRole', order' := byRole[role := group + [t]], if role in byRole then order else order + [role];
    InRoleEmpty(inv, roleOf, role);
    forall r | r in byRole' ensures byRole'[r] == InRole(inv + [t], roleOf, r) { InRoleAppend(inv, t, roleOf, r); }
    forall k | 0 <= k < |inv + [t]| ensures roleOf((inv + [t])[k].name) in byRole' {}
  }

  lemma InRoleAppend(inv: seq<Tensor>, t: Tensor, roleOf: string -> string, role: string)
    ensures InRole(inv + [t], roleOf, role) == InRole(inv, roleOf, role) + if roleOf(t.name) == role then [t] else []
  {
    assert (inv + [t])[..|inv|] == inv;
  }

  /** `setdefault(role, []).append(t)`. */
  method Append(byRole: map<string, seq<Tensor>>, order: seq<string>, t: Tensor, roleOf: string -> string,
        ghost inv: seq<Tensor>)
    returns (byRole': map<string, seq<Tensor>>, order': seq<string>)
    requires Grouped(byRole, order, inv, roleOf)
    ensures Grouped(byRole', order', inv + [t], roleOf)
  {
    var role := roleOf(t.name);
    GroupedStep(byRole, order, inv, t, roleOf);
    var group := if role in byRole then byRole[role] else [];
    byRole' := byRole[role := group + [t]];
    order' := if role in byRole then order else order + [role];
  }

  /** The grouping loop; `order` is the dictionary's key order. */
  method GroupByRole(inv: seq<Tensor>, roleOf: string -> string)
    returns (byRole: map<string, seq<Tensor>>, order: seq<string>)
    ensures Grouped(byRole, order, inv, roleOf)
  {
    byRole, order := map[], [];
    for k := 0 to |inv|
      invariant Grouped(byRole, order, inv[..k], roleOf)
    {
      byRole, order := Append(byRole, order, inv[k], roleOf, inv[..k]);
      assert inv[..k + 1] == inv[..k] + [inv[k]];
    }
    assert inv[..|inv|] == inv;
  }

  lemma {:induction false} InRoleEmpty(inv: seq<Tensor>, roleOf: string -> string, role: string)
    ensures InRole(inv, roleOf, role) == [] <==> forall k :: 0 <= k < |inv| ==> roleOf(inv[k].name) != role
  {
    if inv != [] { InRoleEmpty(inv[..|inv| - 1], roleOf, role); }
  }

  lemma {:induction false} FixedOverStep(inv: seq<Tensor>, roleOf: string -> string, priority: seq<string>,
        roles: seq<string>)
    requires inv != [] && Distinct(roles)
    ensures var n, role := |inv| - 1, roleOf(inv[|inv| - 1].name);
            FixedOver(inv, roleOf, priority, roles)
            == FixedOver(inv[..n], roleOf, priority, roles)
               + if role in roles && role !in priority then inv[n].bytes else 0
  {
    if roles != [] {
      var m := |roles| - 1;
      FixedOverStep(inv, roleOf, priority, roles[..m]);
      assert roles == roles[..m] + [roles[m]];
      BytesStep(inv, roleOf, roles[m]);
    }
  }

  lemma BytesStep(inv: seq<Tensor>, roleOf: string -> string, role: string)
    requires inv != []
    ensures var n := |inv| - 1;
            Bytes(InRole(inv, roleOf, role))
            == Bytes(InRole(inv[..n], roleOf, role)) + if roleOf(inv[n].name) == role then inv[n].bytes else 0
  {
    var before := InRole(inv[..|inv| - 1], roleOf, role);
    if roleOf(inv[|inv| - 1].name) == role {
      assert (before + [inv[|inv| - 1]])[..|before|] == before;
    } else {
      assert before + [] == before;
    }
  }

  /** Summing role by role counts every tensor once. */
  lemma {:induction false} GroupingCounts(inv: seq<Tensor>, roleOf: string -> string, priority: seq<string>,
        roles: seq<string>)
    requires Distinct(roles) && forall k :: 0 <= k < |inv| ==> roleOf(inv[k].name) in roles
    ensures FixedOver(inv, roleOf, priority, roles) == FixedBytes(inv, roleOf, priority)
  {
    if inv == [] {
      NothingFixed(roleOf, priority, roles);
    } else {
      FixedOverStep(inv, roleOf, priority, roles);
      GroupingCounts(inv[..|inv| - 1], roleOf, priority, roles);
    }
  }

  lemma {:induction false} NothingFixed(roleOf: string -> string, priority: seq<string>, roles: seq<string>)
    ensures FixedOver([], roleOf, priority, roles) == 0
  {
    if roles != [] { NothingFixed(roleOf, priority, roles[..|roles| - 1]); }
  }

  // ---------------------------------------------------------------- overrides

  function SetAll(types: map<string, string>, ts: seq<Tensor>, t: string): map<string, string> {
    if ts == [] then types else SetAll(types, ts[..|ts| - 1], t)[ts[|ts| - 1].name := t]
  }

  /** The overrides after the first k roles. */
  function Overrides(inv: seq<Tensor>, roleOf: string -> string, ladder: seq<string>, roles: seq<string>,
        walk: seq<nat>, k: nat): map<string, string>
    requires k <= |roles| == |walk| && forall i :: 0 <= i < |walk| ==> walk[i] < |ladder|
  {
    if k == 0 then map[]
    else
      var before := Overrides(inv, roleOf, ladder, roles, walk, k - 1);
      if walk[k - 1] > 0 then SetAll(before, InRole(inv, roleOf, roles[k - 1]), ladder[walk[k - 1]]) else before
  }

  lemma {:induction false} SetAllSpec(types: map<string, string>, ts: seq<Tensor>, t: string)
    ensures forall n :: n in SetAll(types, ts, t) <==> n in types || exists k :: 0 <= k < |ts| && ts[k].name == n
    ensures forall k :: 0 <= k < |ts| ==> SetAll(types, ts, t)[ts[k].name] == t
    ensures forall n :: n in types && (forall k :: 0 <= k < |ts| ==> ts[k].name != n) ==>
              SetAll(types, ts, t)[n] == types[n]
  {
    if ts != [] {
      var m := |ts| - 1;
      SetAllSpec(types, ts[..m], t);
      assert ts == ts[..m] + [ts[m]];
    }
  }

  lemma {:induction false} InRoleMembers(inv: seq<Tensor>, roleOf: string -> string, role: string, t: Tensor)
    ensures t in InRole(inv, roleOf, role) <==> t in inv && roleOf(t.name) == role
  {
    if inv != [] {
      InRoleMembers(inv[..|inv| - 1], roleOf, role, t);
      assert inv == inv[..|inv| - 1] + [inv[|inv| - 1]];
    }
  }

  /** One role's share of the overrides. */
  lemma SetRole(types: map<string, string>, inv: seq<Tensor>, roleOf: string -> string, role: string, ty: string,
        t: Tensor)
    requires t in inv
    ensures var o := SetAll(types, InRole(inv, roleOf, role), ty);
            if roleOf(t.name) == role then t.name in o && o[t.name] == ty
            else (t.name in o <==> t.name in types) && (t.name in types ==> o[t.name] == types[t.name])
  {
    var ts := InRole(inv, roleOf, role);
    SetAllSpec(types, ts, ty);
    if roleOf(t.name) == role {
      InRoleMembers(inv, roleOf, role, t);
      var j :| 0 <= j < |ts| && ts[j] == t;
      assert ts[j].name == t.name;
    } else {
      OtherRole(inv, roleOf, role, t);
    }
  }

  /** Is a tensor's role touched among the first k roles, and by which index? */
  function TouchedAt(roles: seq<string>, walk: seq<nat>, role: string, k: nat): nat
    requires k <= |roles| == |walk|
  {
    if k == 0 then 0 else if roles[k - 1] == role then walk[k - 1] else TouchedAt(roles, walk, role, k - 1)
  }

  lemma {:induction false} NotYetTouchedAt(roles: seq<string>, walk: seq<nat>, k: nat, j: nat)
    requires j <= k < |roles| == |walk| && Distinct(roles)
    ensures TouchedAt(roles, walk, roles[k], j) == 0
  {
    if j > 0 { NotYetTouchedAt(roles, walk, k, j - 1); }
  }

  /** Exactly the tensors of the touched roles are overridden, each with its role's ladder
      type; in particular a role outside the priority list never is. */
  lemma {:induction false} OverridesSpec(inv: seq<Tensor>, roleOf: string -> string, ladder: seq<string>,
        roles: seq<string>, walk: seq<nat>, k: nat, t: Tensor)
    requires k <= |roles| == |walk| && (forall i :: 0 <= i < |walk| ==> walk[i] < |ladder|) && Distinct(roles)
    requires t in inv
    ensures var o, i := Overrides(inv, roleOf, ladder, roles, walk, k), TouchedAt(roles, walk, roleOf(t.name), k);
            && i <= |ladder| && (t.name in o <==> i > 0)
            && (i > 0 ==> i < |ladder| && o[t.name] == ladder[i])
  {
    if k > 0 {
      OverridesSpec(inv, roleOf, ladder, roles, walk, k - 1, t);
      var before := Overrides(inv, roleOf, ladder, roles, walk, k - 1);
      if walk[k - 1] > 0 { SetRole(before, inv, roleOf, roles[k - 1], ladder[walk[k - 1]], t); }
      if roles[k - 1] == roleOf(t.name) { NotYetTouchedAt(roles, walk, k - 1, k - 1); }
    }
  }

  lemma {:induction false} UntouchedOutsidePriority(roles: seq<string>, walk: seq<nat>, role: string, k: nat)
    requires k <= |roles| == |walk| && role !in roles
    ensures TouchedAt(roles, walk, role, k) == 0
  {
    if k > 0 { UntouchedOutsidePriority(roles, walk, role, k - 1); }
  }

  lemma OtherRole(inv: seq<Tensor>, roleOf: string -> string, role: string, t: Tensor)
    requires roleOf(t.name) != role
    ensures forall k :: 0 <= k < |InRole(inv, roleOf, role)| ==> InRole(inv, roleOf, role)[k].name != t.name
  {
    forall k | 0 <= k < |InRole(inv, roleOf, role)| ensures InRole(inv, roleOf, role)[k].name != t.name {
      InRoleMembers(inv, roleOf, role, InRole(inv, roleOf, role)[k]);
    }
  }

  // ---------------------------------------------------------------- the planner

  function TotalBytes(rb: seq<(string, real)>): real {
    if rb == [] then 0.0 else TotalBytes(rb[..|rb| - 1]) + rb[|rb| - 1].1
  }

  /** The bytes of the first k roles that are outside the priority list. */
  function FixedSoFar(inv: seq<Tensor>, roleOf: string -> string, priority: seq<string>, order: seq<string>,
        k: nat): real
    requires k <= |order|
  {
    FixedOver(inv, roleOf, priority, order[..k]) as real / GIB
  }

  lemma FixedSoFarStep(inv: seq<Tensor>, roleOf: string -> string, priority: seq<string>, order: seq<string>, k: nat)
    requires k < |order|
    ensures FixedSoFar(inv, roleOf, priority, order, k + 1)
            == FixedSoFar(inv, roleOf, priority, order, k)
               + if order[k] in priority then 0.0 else Bytes(InRole(inv, roleOf, order[k])) as real / GIB
  {
    assert order[..k + 1][..k] == order[..k];
    GibAdd(FixedOver(inv, roleOf, priority, order[..k]), Bytes(InRole(inv, roleOf, order[k])));
  }

  lemma GibAdd(a: int, b: int)
    ensures (a + b) as real / GIB == a as real / GIB + b as real / GIB
  {
  }

  /** The roles outside the priority list keep their bytes. */
  method FixedRoles(byRole: map<string, seq<Tensor>>, order: seq<string>, priority: seq<string>,
                    ghost inv: seq<Tensor>, ghost roleOf: string -> string)
    returns (fixed: real, roleBytes: seq<(string, real)>)
    requires Grouped(byRole, order, inv, roleOf)
    ensures fixed == TotalBytes(roleBytes) == FixedGib(inv, roleOf, priority)
    ensures forall k :: 0 <= k < |roleBytes| ==> roleBytes[k].0 !in priority
  {
    fixed, roleBytes := 0.0, [];
    for k := 0 to |order|
      invariant fixed == TotalBytes(roleBytes) == FixedSoFar(inv, roleOf, priority, order, k)
      invariant forall i :: 0 <= i < |roleBytes| ==> roleBytes[i].0 !in priority
    {
      var role := order[k];
      FixedSoFarStep(inv, roleOf, priority, order, k);
      if role !in priority {
        var b := Bytes(byRole[role]) as real / GIB;
        TotalAppend(roleBytes, (role, b));
        roleBytes := roleBytes + [(role, b)];
        fixed := fixed + b;
      }
    }
    assert order[..|order|] == order;
    GroupingCounts(inv, roleOf, priority, order);
  }

  /** `[r for r in role_priority if by_role.get(r)]`. */
  method PresentRoles(byRole: map<string, seq<Tensor>>, order: seq<string>, priority: seq<string>,
                      ghost inv: seq<Tensor>, ghost roleOf: string -> string) returns (present: seq<string>)
    requires Grouped(byRole, order, inv, roleOf)
    ensures present == Present(inv, roleOf, priority)
  {
    present := [];
    for k := 0 to |priority|
      invariant present + Present(inv, roleOf, priority[k..]) == Present(inv, roleOf, priority)
    {
      assert priority[k..][1..] == priority[k + 1..];
      InRoleEmpty(inv, roleOf, priority[k]);
      if priority[k] in byRole && byRole[priority[k]] != [] { present := present + [priority[k]]; }
    }
  }

  lemma {:induction false} PresentGrouped(byRole: map<string, seq<Tensor>>, order: seq<string>, priority: seq<string>,
                                          inv: seq<Tensor>, roleOf: string -> string)
    requires Grouped(byRole, order, inv, roleOf)
    ensures forall r :: r in Present(inv, roleOf, priority) ==> r in byRole
  {
    if priority != [] {
      InRoleEmpty(inv, roleOf, priority[0]);
      PresentGrouped(byRole, order, priority[1..], inv, roleOf);
    }
  }

  /** The ladder scan for one role. */
  method FitRole(sizes: seq<real>, src: real, need: real) returns (idx: nat, size: real)
    requires IsLadder(sizes)
    ensures idx == Choose(sizes, src, need) && size == ChosenSize(sizes, src, need)
  {
    var maxCompressed := src * Scale(sizes, |sizes| - 1);
    var take := MinReal(need, src - maxCompressed);
    var target := src - take;
    idx, size := |sizes| - 1, maxCompressed;
    for i := 0 to |sizes|
      invariant idx == |sizes| - 1 && size == maxCompressed
      invariant FirstFit(sizes, src, target, i) == FirstFit(sizes, src, target, 0)
    {
      var candidate := src * Scale(sizes, i);
      if candidate <= target + SLACK {
        return i, candidate;
      }
    }
  }

  method MarkTensors(types: map<string, string>, ts: seq<Tensor>, t: string) returns (r: map<string, string>)
    ensures r == SetAll(types, ts, t)
  {
    r := types;
    for k := 0 to |ts|
      invariant r == SetAll(types, ts[..k], t)
    {
      assert ts[..k + 1][..k] == ts[..k];
      r := r[ts[k].name := t];
    }
    assert ts[..|ts|] == ts;
  }

  /** One role of the walk: the type for its tensors, what is left to save, its new size. */
  method PlanRole(types: map<string, string>, ts: seq<Tensor>, sizes: seq<real>, ladder: seq<string>, savings: real)
    returns (r: map<string, string>, left: real, size: real)
    requires IsLadder(sizes) && |ladder| == |sizes|
    ensures var src := Bytes(ts) as real / GIB;
            && left == Left(sizes, src, savings) && size == ChosenSize(sizes, src, savings)
            && r == if Choose(sizes, src, savings) > 0 then SetAll(types, ts, ladder[Choose(sizes, src, savings)])
                    else types
  {
    var src := Bytes(ts) as real / GIB;
    var idx;
    idx, size := FitRole(sizes, src, savings);
    left := MaxReal(0.0, savings - (src - size));
    r := types;
    if idx > 0 { r := MarkTensors(r, ts, ladder[idx]); }
  }

  /** Where the walk stands after k roles. */
  ghost predicate WalkedTo(sizes: seq<real>, srcs: seq<real>, needed: real, k: nat, savings: real, spent: real)
    requires IsLadder(sizes) && k <= |srcs|
  {
    && |Walk(sizes, srcs, needed)| == |srcs|
    && Walk(sizes, srcs, needed)[k..] == Walk(sizes, srcs[k..], savings)
    && spent + Planned(sizes, srcs[k..], savings) == Planned(sizes, srcs, needed)
  }

  lemma WalkedStep(sizes: seq<real>, srcs: seq<real>, needed: real, k: nat, savings: real, spent: real)
    requires IsLadder(sizes) && k < |srcs| == |Walk(sizes, srcs, needed)|
    requires WalkedTo(sizes, srcs, needed, k, savings, spent)
    ensures Walk(sizes, srcs, needed)[k] == Choose(sizes, srcs[k], savings)
    ensures WalkedTo(sizes, srcs, needed, k + 1, Left(sizes, srcs[k], savings),
                     spent + ChosenSize(sizes, srcs[k], savings))
  {
    var walk := Walk(sizes, srcs, needed);
    assert srcs[k..][0] == srcs[k] && srcs[k..][1..] == srcs[k + 1..];
    assert walk[k] == walk[k..][0] && walk[k..][1..] == walk[k + 1..];
  }

  ghost predicate Progress(sizes: seq<real>, srcs: seq<real>, needed: real, k: nat, savings: real,
                           fixedBytes: seq<(string, real)>, roleBytes: seq<(string, real)>)
    requires IsLadder(sizes) && k <= |srcs|
  {
    WalkedTo(sizes, srcs, needed, k, savings, TotalBytes(roleBytes) - TotalBytes(fixedBytes))
  }

  lemma ProgressStep(sizes: seq<real>, srcs: seq<real>, needed: real, k: nat, savings: real,
                     fixedBytes: seq<(string, real)>, roleBytes: seq<(string, real)>, role: string)
    requires IsLadder(sizes) && k < |srcs| && Progress(sizes, srcs, needed, k, savings, fixedBytes, roleBytes)
    ensures |Walk(sizes, srcs, needed)| == |srcs| && Walk(sizes, srcs, needed)[k] == Choose(sizes, srcs[k], savings)
    ensures Progress(sizes, srcs, needed, k + 1, Left(sizes, srcs[k], savings),
                     fixedBytes, roleBytes + [(role, ChosenSize(sizes, srcs[k], savings))])
  {
    WalkedStep(sizes, srcs, needed, k, savings, TotalBytes(roleBytes) - TotalBytes(fixedBytes));
    TotalAppend(roleBytes, (role, ChosenSize(sizes, srcs[k], savings)));
  }

  lemma ProgressDone(sizes: seq<real>, srcs: seq<real>, needed: real, savings: real,
                     fixedBytes: seq<(string, real)>, roleBytes: seq<(string, real)>)
    requires IsLadder(sizes) && Progress(sizes, srcs, needed, |srcs|, savings, fixedBytes, roleBytes)
    ensures TotalBytes(roleBytes) == TotalBytes(fixedBytes) + Planned(sizes, srcs, needed)
  {
    assert srcs[|srcs|..] == [];
  }

  /** The groups of the present roles. */
  ghost predicate GroupsOf(byRole: map<string, seq<Tensor>>, present: seq<string>, inv: seq<Tensor>,
        roleOf: string -> string) {
    forall k :: 0 <= k < |present| ==> present[k] in byRole && byRole[present[k]] == InRole(inv, roleOf, present[k])
  }

  /** The recorded sizes of the first k present roles, after the fixed ones. */
  ghost predicate Recorded(roleBytes: seq<(string, real)>, fixedBytes: seq<(string, real)>, present: seq<string>,
        sizes: seq<real>, srcs: seq<real>, walk: seq<nat>, k: nat)
    requires IsLadder(sizes) && k <= |present| == |srcs| == |walk| && forall i :: 0 <= i < |walk| ==> walk[i] < |sizes|
  {
    && |roleBytes| == |fixedBytes| + k && roleBytes[..|fixedBytes|] == fixedBytes
    && forall i :: 0 <= i < k ==> roleBytes[|fixedBytes| + i] == (present[i], Candidate(sizes, srcs[i], walk[i]))
  }

  lemma RecordedStep(roleBytes: seq<(string, real)>, fixedBytes: seq<(string, real)>, present: seq<string>,
        sizes: seq<real>, srcs: seq<real>,
                     walk: seq<nat>, k: nat, size: real)
    requires IsLadder(sizes) && k < |present| == |srcs| == |walk| && forall i :: 0 <= i < |walk| ==> walk[i] < |sizes|
    requires Recorded(roleBytes, fixedBytes, present, sizes, srcs, walk, k)
    requires size == Candidate(sizes, srcs[k], walk[k])
    ensures Recorded(roleBytes + [(present[k], size)], fixedBytes, present, sizes, srcs, walk, k + 1)
  {
    assert (roleBytes + [(present[k], size)])[..|fixedBytes|] == roleBytes[..|fixedBytes|];
  }

  /** The walk over the present roles. */
  method WalkRoles(byRole: map<string, seq<Tensor>>, present: seq<string>, sizes: seq<real>, ladder: seq<string>,
        needed: real,
                   fixedBytes: seq<(string, real)>, ghost inv: seq<Tensor>, ghost roleOf: string -> string,
        ghost srcs: seq<real>, ghost walk: seq<nat>)
    returns (types: map<string, string>, roleBytes: seq<(string, real)>)
    requires IsLadder(sizes) && |ladder| == |sizes| && GroupsOf(byRole, present, inv, roleOf)
    requires srcs == SourceSizes(inv, roleOf, present) && walk == Walk(sizes, srcs, needed)
    requires |walk| == |present| && forall i :: 0 <= i < |walk| ==> walk[i] < |sizes|
    ensures types == Overrides(inv, roleOf, ladder, present, walk, |present|)
    ensures Recorded(roleBytes, fixedBytes, present, sizes, srcs, walk, |present|)
    ensures TotalBytes(roleBytes) == TotalBytes(fixedBytes) + Planned(sizes, srcs, needed)
  {
    types, roleBytes := map[], fixedBytes;
    var savings := needed;
    assert srcs[0..] == srcs && walk[0..] == walk;
    for k := 0 to |present|
      invariant Progress(sizes, srcs, needed, k, savings, fixedBytes, roleBytes)
      invariant Recorded(roleBytes, fixedBytes, present, sizes, srcs, walk, k)
      invariant types == Overrides(inv, roleOf, ladder, present, walk, k)
    {
      types, savings, roleBytes := WalkOne(byRole, present, k, types, savings, roleBytes, sizes, ladder,
        needed, fixedBytes, inv, roleOf, srcs, walk);
    }
    ProgressDone(sizes, srcs, needed, savings, fixedBytes, roleBytes);
  }

  method WalkOne(byRole: map<string, seq<Tensor>>, present: seq<string>, k: nat, types: map<string, string>,
        savings: real,
                 roleBytes: seq<(string, real)>, sizes: seq<real>, ladder: seq<string>, ghost needed: real,
                 ghost fixedBytes: seq<(string, real)>, ghost inv: seq<Tensor>, ghost roleOf: string -> string,
        ghost srcs: seq<real>, ghost walk: seq<nat>)
    returns (types': map<string, string>, savings': real, roleBytes': seq<(string, real)>)
    requires IsLadder(sizes) && |ladder| == |sizes| && k < |present| && GroupsOf(byRole, present, inv, roleOf)
    requires srcs == SourceSizes(inv, roleOf, present) && walk == Walk(sizes, srcs, needed)
    requires |walk| == |present| && forall i :: 0 <= i < |walk| ==> walk[i] < |sizes|
    requires Progress(sizes, srcs, needed, k, savings, fixedBytes, roleBytes)
    requires Recorded(roleBytes, fixedBytes, present, sizes, srcs, walk, k)
    requires types == Overrides(inv, roleOf, ladder, present, walk, k)
    ensures Progress(sizes, srcs, needed, k + 1, savings', fixedBytes, roleBytes')
    ensures Recorded(roleBytes', fixedBytes, present, sizes, srcs, walk, k + 1)
    ensures types' == Overrides(inv, roleOf, ladder, present, walk, k + 1)
  {
    var role := present[k];
    ProgressStep(sizes, srcs, needed, k, savings, fixedBytes, roleBytes, role);
    var size;
    types', savings', size := PlanRole(types, byRole[role], sizes, ladder, savings);
    RecordedStep(roleBytes, fixedBytes, present, sizes, srcs, walk, k, size);
    roleBytes' := roleBytes + [(role, size)];
  }

  lemma TotalAppend(rb: seq<(string, real)>, x: (string, real))
    ensures TotalBytes(rb + [x]) == TotalBytes(rb) + x.1
  {
    assert (rb + [x])[..|rb|] == rb;
  }

  function FixedGib(inv: seq<Tensor>, roleOf: string -> string, priority: seq<string>): real {
    FixedBytes(inv, roleOf, priority) as real / GIB
  }

  method SumOf(s: seq<real>) returns (r: real)
    ensures r == Sum(s)
  {
    r := 0.0;
    for k := 0 to |s|
      invariant r + Sum(s[k..]) == Sum(s)
    {
      assert s[k..][1..] == s[k + 1..];
      r := r + s[k];
    }
  }

  /** What the walk starts from: the groups, the present roles, their sizes and the need. */
  method Prepare(inv: seq<Tensor>, budget: int, priority: seq<string>, roleOf: string -> string)
    returns (byRole: map<string, seq<Tensor>>, present: seq<string>, roleBytes: seq<(string, real)>, needed: real)
    requires Distinct(priority)
    ensures present == Present(inv, roleOf, priority)
    ensures GroupsOf(byRole, present, inv, roleOf)
    ensures TotalBytes(roleBytes) == FixedGib(inv, roleOf, priority)
    ensures forall k :: 0 <= k < |roleBytes| ==> roleBytes[k].0 !in priority
    ensures needed == Need(FixedGib(inv, roleOf, priority), SourceSizes(inv, roleOf, present), budget)
  {
    var order, fixed;
    byRole, order := GroupByRole(inv, roleOf);
    fixed, roleBytes := FixedRoles(byRole, order, priority, inv, roleOf);
    present := PresentRoles(byRole, order, priority, inv, roleOf);
    PresentGrouped(byRole, order, priority, inv, roleOf);
    needed := NeededSavings(byRole, present, fixed, budget, inv, roleOf);
  }

  method NeededSavings(byRole: map<string, seq<Tensor>>, present: seq<string>, fixed: real, budget: int,
        ghost inv: seq<Tensor>, ghost roleOf: string -> string) returns (needed: real)
    requires GroupsOf(byRole, present, inv, roleOf)
    ensures needed == Need(fixed, SourceSizes(inv, roleOf, present), budget)
  {
    var srcs := seq(|present|, k requires 0 <= k < |present| && present[k] in byRole =>
      Bytes(byRole[present[k]]) as real / GIB);
    assert srcs == SourceSizes(inv, roleOf, present);
    var sum := SumOf(srcs);
    needed := MaxReal(0.0, fixed + sum - budget as real / GIB);
  }

  /** The ladder index of each present role. */
  function WalkOf(inv: seq<Tensor>, budget: int, priority: seq<string>, sizes: seq<real>,
        roleOf: string -> string): (walk: seq<nat>)
    requires IsLadder(sizes)
    ensures |walk| == |Present(inv, roleOf, priority)| && forall i :: 0 <= i < |walk| ==> walk[i] < |sizes|
  {
    var srcs := SourceSizes(inv, roleOf, Present(inv, roleOf, priority));
    var need := Need(FixedGib(inv, roleOf, priority), srcs, budget);
    WalkShape(sizes, srcs, need);
    Walk(sizes, srcs, need)
  }

  /** The `tensor_types` of the plan. */
  function TypesOf(inv: seq<Tensor>, budget: int, priority: seq<string>, ladder: seq<string>, sizes: seq<real>,
        roleOf: string -> string): map<string, string>
    requires IsLadder(sizes) && |ladder| == |sizes|
  {
    var present := Present(inv, roleOf, priority);
    Overrides(inv, roleOf, ladder, present, WalkOf(inv, budget, priority, sizes, roleOf), |present|)
  }

  /** What `plan_from_source` returns. */
  ghost predicate IsPlan(plan: Plan, inv: seq<Tensor>, budget: int, priority: seq<string>, ladder: seq<string>,
        sizes: seq<real>, roleOf: string -> string)
    requires IsLadder(sizes) && |ladder| == |sizes|
  {
    var present := Present(inv, roleOf, priority);
    var srcs, fixed := SourceSizes(inv, roleOf, present), FixedGib(inv, roleOf, priority);
    && plan.tensorTypes == TypesOf(inv, budget, priority, ladder, sizes, roleOf)
    && plan.estimatedBytes == EstimatedBytes(sizes, fixed, srcs, budget)
    && plan.budgetBytes == budget
    && |plan.roleBytes| >= |present|
    && var fixedBytes := plan.roleBytes[..|plan.roleBytes| - |present|];
    && Recorded(plan.roleBytes, fixedBytes, present, sizes, srcs, WalkOf(inv, budget, priority, sizes, roleOf),
                |present|)
    && TotalBytes(fixedBytes) == fixed
    && (forall k :: 0 <= k < |fixedBytes| ==> fixedBytes[k].0 !in priority)
    && (plan.fitsBudget <==> Fits(sizes, fixed, srcs, budget))
  }

  /** `plan_from_source`. */
  method PlanFromSource(inv: seq<Tensor>, budget: int, priority: seq<string>, ladder: seq<string>, sizes: seq<real>,
        roleOf: string -> string)
    returns (plan: Plan)
    requires IsLadder(sizes) && |ladder| == |sizes| && Distinct(priority)
    ensures IsPlan(plan, inv, budget, priority, ladder, sizes, roleOf)
  {
    var byRole, present, fixedBytes, needed := Prepare(inv, budget, priority, roleOf);
    ghost var srcs := SourceSizes(inv, roleOf, present);
    ghost var walk := WalkOf(inv, budget, priority, sizes, roleOf);
    var types, roleBytes := WalkRoles(byRole, present, sizes, ladder, needed, fixedBytes, inv, roleOf, srcs, walk);
    var estimated := (TotalBytes(roleBytes) * GIB).Floor;
    plan := Plan(types, roleBytes, estimated, budget, estimated <= budget);
  }

  // ---------------------------------------------------------------- what a plan promises

  /** The ladder index a plan gives a role: 0 when its tensors keep the source's type. */
  function IndexOf(inv: seq<Tensor>, budget: int, priority: seq<string>, sizes: seq<real>, roleOf: string -> string,
        role: string): nat
    requires IsLadder(sizes)
  {
    var present := Present(inv, roleOf, priority);
    TouchedAt(present, WalkOf(inv, budget, priority, sizes, roleOf), role, |present|)
  }

  lemma {:induction false} TouchedMonotone(roles: seq<string>, low: seq<nat>, high: seq<nat>, role: string, k: nat)
    requires k <= |roles| == |low| == |high| && forall i :: 0 <= i < |roles| ==> high[i] <= low[i]
    ensures TouchedAt(roles, high, role, k) <= TouchedAt(roles, low, role, k)
  {
    if k > 0 { TouchedMonotone(roles, low, high, role, k - 1); }
  }

  /** For every inventory, raising the byte budget never makes any tensor's type more
      aggressive. */
  lemma PlanMonotone(inv: seq<Tensor>, budget: int, more: int, priority: seq<string>, sizes: seq<real>,
        roleOf: string -> string, role: string)
    requires IsLadder(sizes) && budget <= more
    ensures IndexOf(inv, more, priority, sizes, roleOf, role) <= IndexOf(inv, budget, priority, sizes, roleOf, role)
  {
    var present := Present(inv, roleOf, priority);
    RaisingBudgetNeverHurts(sizes, FixedGib(inv, roleOf, priority), SourceSizes(inv, roleOf, present), budget, more);
    TouchedMonotone(present, WalkOf(inv, budget, priority, sizes, roleOf),
      WalkOf(inv, more, priority, sizes, roleOf), role, |present|);
  }

  /** A tensor is overridden exactly when its role's index is not 0, with that ladder type;
      a tensor whose role is not in the priority list never is. */
  lemma PlanOverrides(inv: seq<Tensor>, budget: int, priority: seq<string>, ladder: seq<string>, sizes: seq<real>,
        roleOf: string -> string, t: Tensor)
    requires IsLadder(sizes) && |ladder| == |sizes| && Distinct(priority) && t in inv
    ensures var types := TypesOf(inv, budget, priority, ladder, sizes, roleOf);
            var i := IndexOf(inv, budget, priority, sizes, roleOf, roleOf(t.name));
            && (t.name in types <==> i > 0)
            && (i > 0 ==> i < |ladder| && types[t.name] == ladder[i])
            && (roleOf(t.name) !in priority ==> t.name !in types)
  {
    var present, walk := Present(inv, roleOf, priority), WalkOf(inv, budget, priority, sizes, roleOf);
    PresentSpec(inv, roleOf, priority);
    OverridesSpec(inv, roleOf, ladder, present, walk, |present|, t);
    if roleOf(t.name) !in priority { UntouchedOutsidePriority(present, walk, roleOf(t.name), |present|); }
  }
}
