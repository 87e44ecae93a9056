/** `PerTierEvictionController` (gb_evict_policy.py): one prioritized policy per tier.
    Its methods are stated on `View(t)`, the items tracked in tier t in push order. */
module EvictController {
  import opened Basics
  import opened EvictLedger
  import opened EvictSpec
  import opened EvictPolicy

  class PerTierEvictionController {
    var policies: map<string, PrioritizedEvictionPolicy>
    ghost var Repr: set<object>

    ghost predicate Valid()
      reads this, Repr
    {
      && this in Repr && (forall o :: o in Repr ==> !(o is Entry))
      && (forall t :: t in policies ==>
            policies[t] in Repr && policies[t].policies.Values <= Repr && policies[t].Valid())
      && (forall t, u :: t in policies && u in policies && t != u ==>
            policies[t] != policies[u] && policies[t].policies.Values !! policies[u].policies.Values)
    }

    /** The tracks of each tier that has a policy. */
    ghost function Views(): Tiers<Entry>
      reads `policies, policies.Values
    {
      map t | t in policies :: policies[t].tracked
    }

    ghost function View(t: string): seq<Track<Entry>>
      reads `policies, policies.Values
    {
      At(Views(), t)
    }

    constructor ()
      ensures Valid() && fresh(Repr) && forall t :: View(t) == []
    {
      policies, Repr := map[], {this};
    }

    /** Creates the tier's policy on first use. */
    method PolicyFor(tier: string) returns (p: PrioritizedEvictionPolicy)
      requires Valid()
      modifies this
      ensures Valid() && fresh(Repr - old(Repr)) && tier in policies && p == policies[tier]
      ensures Same(Views(), old(Views()))
    {
      if tier !in policies {
        p := new PrioritizedEvictionPolicy();
        policies := policies[tier := p];
        Repr := Repr + {p};
      }
      p := policies[tier];
    }

    /** ... which leaves the live fields of the items alone. */
    method PolicyBeside(tier: string, ghost es: set<Entry>) returns (p: PrioritizedEvictionPolicy)
      requires Valid()
      modifies this
      ensures Valid() && fresh(Repr - old(Repr)) && tier in policies && p == policies[tier]
      ensures Same(Views(), old(Views()))
      ensures LastUsed(es) == old(LastUsed(es)) && Priorities(es) == old(Priorities(es))
    {
      p := PolicyFor(tier);
    }

    method ScheduleForEviction(item: Entry, first: bool)
      requires Valid()
      modifies Repr
      ensures Valid() && fresh(Repr - old(Repr))
      ensures Same(Views(), Next(old(Views()), Schedule(item, item.tier, item.priority, first)))
    {
      PushTo(item.tier, item, first);
    }

    /** `policy_for(tier).push(item, evict_first)`. */
    method PushTo(tier: string, item: Entry, first: bool)
      requires Valid()
      modifies Repr
      ensures Valid() && fresh(Repr - old(Repr))
      ensures Same(Views(), Next(old(Views()), Schedule(item, tier, item.priority, first)))
    {
      ghost var op := Schedule(item, tier, item.priority, first);
      var p := PolicyFor(tier);
      ghost var m := Views();
      PushExisting(tier, item, first, op.bucket);
      FollowsOld(m, old(Views()), op, Views());
    }

    method PushExisting(tier: string, item: Entry, first: bool, ghost bucket: int)
      requires Valid() && tier in policies && bucket == item.priority
      modifies Repr
      ensures Valid() && fresh(Repr - old(Repr)) && policies == old(policies)
      ensures policies[tier].tracked == AfterPush(old(policies[tier].tracked), Track(item, bucket, first))
      ensures forall t :: t in policies && t != tier ==> policies[t].tracked == old(policies[t].tracked)
    {
      policies[tier].Push(item, first);
      Repr := Repr + policies[tier].policies.Values;
    }

    /** The next thing that would be evicted from `tier`. */
    method VictimOf(tier: string) returns (v: Option<Entry>)
      requires Valid()
      modifies this
      ensures Valid() && fresh(Repr - old(Repr)) && Same(Views(), old(Views()))
      ensures v == if View(tier) == [] then None else Some(Victim(View(tier), LastUsed(EntriesOf(View(tier)))).item)
    {
      var p := PolicyFor(tier);
      v := p.Peek();
    }

    /** Evicts the victim, provided its priority is the one it was pushed under. */
    method Evict(tier: string) returns (r: Result<Entry>)
      requires Valid()
      modifies Repr
      ensures Valid() && fresh(Repr - old(Repr))
      ensures var used, priorities := old(LastUsed(EntriesOf(View(tier)))), old(Priorities(EntriesOf(View(tier))));
              && r == Popped(old(View(tier)), used, priorities)
              && Same(Views(), Next(old(Views()), EvictLedger.Evict(tier, used, priorities)))
    {
      ghost var es := EntriesOf(View(tier));
      ghost var op := EvictLedger.Evict(tier, LastUsed(es), Priorities(es));
      var p := PolicyBeside(tier, es);
      ghost var m := Views();
      assert At(m, tier) == old(View(tier)) && m[tier] == p.tracked;
      r := PopExisting(tier, op.used, op.priorities);
      FollowsOld(m, old(Views()), op, Views());
    }

    method PopExisting(tier: string, ghost used: map<Entry, real>, ghost priorities: map<Entry, int>)
      returns (r: Result<Entry>)
      requires Valid() && tier in policies
      requires used == LastUsed(EntriesOf(policies[tier].tracked))
      requires priorities == Priorities(EntriesOf(policies[tier].tracked))
      modifies Repr
      ensures Valid() && Repr == old(Repr) && policies == old(policies)
      ensures forall t :: t in policies && t != tier ==> policies[t].tracked == old(policies[t].tracked)
      ensures r == Popped(old(policies[tier].tracked), used, priorities)
      ensures policies[tier].tracked == AfterPop(old(policies[tier].tracked), used, priorities)
    {
      r := policies[tier].Pop();
    }

    /** Stops tracking an item, tolerating an untracked one.  An absent or empty tier name
        means the item's own tier. */
    method Forget(item: Entry, tier: Option<string>)
      requires Valid()
      modifies Repr
      ensures Valid() && fresh(Repr - old(Repr))
      ensures var name := if tier.Some? && tier.value != "" then tier.value else item.tier;
              Same(Views(), Next(old(Views()), EvictLedger.Forget(item, name, item.priority)))
    {
      var name := if tier.Some? && tier.value != "" then tier.value else item.tier;
      ghost var op := EvictLedger.Forget(item, name, item.priority);
      var p := PolicyFor(name);
      ghost var m := Views();
      RemoveExisting(name, item, op.bucket);
      FollowsOld(m, old(Views()), op, Views());
    }

    method RemoveExisting(tier: string, item: Entry, ghost bucket: int)
      requires Valid() && tier in policies && bucket == item.priority
      modifies Repr
      ensures Valid() && Repr == old(Repr) && policies == old(policies)
      ensures policies[tier].tracked == AfterForget(old(policies[tier].tracked), item, bucket)
      ensures forall t :: t in policies && t != tier ==> policies[t].tracked == old(policies[t].tracked)
    {
      var policy := policies[tier];
      var r := policy.Remove(item);
    }

    /** Moves an item's tracking between tiers. */
    method Retier(item: Entry, oldTier: string, newTier: string, first: bool)
      requires Valid()
      modifies Repr
      ensures Valid() && fresh(Repr - old(Repr))
      ensures var name := if oldTier != "" then oldTier else item.tier;
              Same(Views(), Next(old(Views()), EvictLedger.Retier(item, name, newTier, item.priority, first)))
    {
      ghost var name := if oldTier != "" then oldTier else item.tier;
      Forget(item, Some(oldTier));
      ghost var m := Views();
      PushTo(newTier, item, first);
      TwoSteps(old(Views()), m, Views(), item, name, newTier, item.priority, first);
    }
  }

  lemma FollowsOld(m: Tiers<Entry>, was: Tiers<Entry>, op: Op<Entry>, n: Tiers<Entry>)
    requires !op.Retier? && Same(m, was) && op.tier in m && n.Keys == m.Keys
    requires n[op.tier] == Next(m, op)[op.tier]
    requires forall t :: t in m && t != op.tier ==> n[t] == m[t]
    ensures Same(n, Next(was, op))
  {
    assert n == Next(m, op);
    SameNext(m, was, op);
  }

  lemma TwoSteps(was: Tiers<Entry>, m: Tiers<Entry>, n: Tiers<Entry>, item: Entry, source: string, target: string,
        bucket: int, first: bool)
    requires Same(m, Next(was, Forget(item, source, bucket)))
    requires Same(n, Next(m, Schedule(item, target, bucket, first)))
    ensures Same(n, Next(was, Retier(item, source, target, bucket, first)))
  {
    SameNext(m, Next(was, Forget(item, source, bucket)), Schedule(item, target, bucket, first));
  }
}
