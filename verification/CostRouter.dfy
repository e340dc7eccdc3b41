/**
  Picking a subscription pool (src/models/cost_router.ts): round-robin within a tier, skipping pools that
  are rate-limited at the moment of the pick.
*/
module CostRouter {
  import opened Wrappers

  datatype Tier = Cheap | Balanced | Premium

  datatype Pool = Pool(alias: string, provider: string, model: string)

  datatype Reason = EmptyTier | AllRateLimited

  /** One line of the audit trail: the alias that was picked, or why none was. */
  datatype AuditEntry = AuditEntry(tier: Tier, alias: Option<string>, reason: Option<Reason>)

  /** Whether an alias is rate-limited when asked. */
  type Probe = string -> bool

  /** The pool that is looked at `i` places after the cursor, going round. */
  function Around(n: nat, start: nat, i: nat): (idx: nat)
    requires n > 0 && start < n && i < n
    ensures idx < n
  {
    if start + i < n then start + i else start + i - n
  }

  predicate IsAvailable(pools: seq<Pool>, limited: Probe, i: nat)
    requires i < |pools|
  {
    !limited(pools[i].alias)
  }

  /** `idx` is the first available pool at or after the cursor, going round once. */
  predicate IsNext(pools: seq<Pool>, cursor: nat, limited: Probe, idx: nat) {
    && cursor < |pools| && idx < |pools| && IsAvailable(pools, limited, idx)
    && forall j | 0 <= j < |pools| && IsBetween(|pools|, cursor, j, idx) :: !IsAvailable(pools, limited, j)
  }

  /** Going round from `from`, `j` comes strictly before `to`. */
  predicate IsBetween(n: nat, from: nat, j: nat, to: nat) {
    Distance(n, from, j) < Distance(n, from, to)
  }

  /** Steps from `from` to `to`, going round. */
  function Distance(n: nat, from: nat, to: nat): int {
    if to >= from then to - from else n + to - from
  }

  /** Where the cursor stands for `pools`: it was left by an earlier pick on the same pools. */
  function Start(cursor: nat, n: nat): (s: nat)
    requires n > 0
    ensures s < n
  {
    cursor % n
  }

  function AfterPick(idx: nat, n: nat): nat
    requires idx < n
  {
    if idx + 1 == n then 0 else idx + 1
  }

  /** A missing tier has no pools. */
  function PoolsOf(pools: map<Tier, seq<Pool>>, tier: Tier): seq<Pool> {
    if tier in pools then pools[tier] else []
  }

  /** One pick as the world sees it: who asked, under which probe, with which cursors, and what came of it. */
  datatype PickEvent = PickEvent(tier: Tier, limited: Probe, before: map<Tier, nat>, picked: Option<nat>)

  /** The first available pool from the cursor on, or nothing when none is available. */
  ghost predicate IsPick(pools: map<Tier, seq<Pool>>, e: PickEvent) {
    var own := PoolsOf(pools, e.tier);
    && e.tier in e.before
    && match e.picked
       case Some(idx) => own != [] && IsNext(own, Start(e.before[e.tier], |own|), e.limited, idx)
       case None => forall i | 0 <= i < |own| :: !IsAvailable(own, e.limited, i)
  }

  /** Only the picked tier's cursor moves, and only when a pool was found. */
  ghost function CursorsAfter(pools: map<Tier, seq<Pool>>, e: PickEvent): map<Tier, nat>
    requires IsPick(pools, e)
  {
    if e.picked.Some? then e.before[e.tier := AfterPick(e.picked.value, |PoolsOf(pools, e.tier)|)] else e.before
  }

  class CostRouter {
    const pools: map<Tier, seq<Pool>>
    var cursors: map<Tier, nat>
    var audit: seq<AuditEntry>

    constructor (pools: map<Tier, seq<Pool>>)
      ensures Valid() && this.pools == pools && audit == []
      ensures forall t :: cursors[t] == 0
    {
      this.pools := pools;
      cursors := map[Cheap := 0, Balanced := 0, Premium := 0];
      audit := [];
      new;
      forall t: Tier ensures t in cursors && cursors[t] == 0 {
        assert t == Cheap || t == Balanced || t == Premium;
      }
    }

    ghost predicate Valid()
      reads this
    {
      forall t: Tier :: t in cursors
    }

    /** Picks one pool, or fails with the reason; every decision is audited. */
    method Pick(tier: Tier, limited: Probe) returns (r: Result<string, Reason>, ghost event: PickEvent)
      requires Valid()
      modifies this
      ensures Valid()
      ensures event.tier == tier && event.limited == limited && event.before == old(cursors)
      ensures IsPick(pools, event) && cursors == CursorsAfter(pools, event)
      ensures match event.picked
        case Some(idx) => r == Ok(PoolsOf(pools, tier)[idx].alias)
        case None => r == Err(if PoolsOf(pools, tier) == [] then EmptyTier else AllRateLimited)
      ensures audit == old(audit) + [match r
        case Ok(alias) => AuditEntry(tier, Some(alias), None)
        case Err(reason) => AuditEntry(tier, None, Some(reason))]
    {
      event := PickEvent(tier, limited, cursors, None);
      var tierPools := PoolsOf(pools, tier);
      var n := |tierPools|;
      if n == 0 {
        audit := audit + [AuditEntry(tier, None, Some(EmptyTier))];
        return Err(EmptyTier), event;
      }
      var start := Start(cursors[tier], n);
      for i := 0 to n
        invariant cursors == old(cursors) && audit == old(audit)
        invariant forall j | 0 <= j < n && Distance(n, start, j) < i :: !IsAvailable(tierPools, limited, j)
      {
        var idx := Around(n, start, i);
        assert Distance(n, start, idx) == i;
        var pool := tierPools[idx];
        if limited(pool.alias) {
          assert forall j | 0 <= j < n && Distance(n, start, j) == i :: j == idx;
          continue;
        }
        assert IsNext(tierPools, start, limited, idx);
        cursors := cursors[tier := AfterPick(idx, n)];
        audit := audit + [AuditEntry(tier, Some(pool.alias), None)];
        return Ok(pool.alias), event.(picked := Some(idx));
      }
      assert forall j | 0 <= j < n :: Distance(n, start, j) < n;
      audit := audit + [AuditEntry(tier, None, Some(AllRateLimited))];
      return Err(AllRateLimited), event;
    }
  }

  // ---------------------------------------------------------------------------------------------
  // Runs of picks in one tier
  // ---------------------------------------------------------------------------------------------

  /**
    `picked[k]` is the pool chosen by the k-th successful pick and `cursors[k]` where the cursor stood
    before it, under the probe of that moment.
  */
  ghost predicate IsPickRun(pools: seq<Pool>, cursors: seq<nat>, probes: seq<Probe>, picked: seq<nat>) {
    && |probes| == |picked| && |cursors| == |picked| + 1
    && forall k | 0 <= k < |picked| ::
         && IsNext(pools, cursors[k], probes[k], picked[k])
         && cursors[k + 1] == AfterPick(picked[k], |pools|)
  }

  /** A pick that is not `i` leaves the cursor closer to an available `i`. */
  lemma PickApproaches(pools: seq<Pool>, cursor: nat, limited: Probe, idx: nat, i: nat)
    requires i < |pools| && IsNext(pools, cursor, limited, idx) && IsAvailable(pools, limited, i) && idx != i
    ensures 0 <= Distance(|pools|, AfterPick(idx, |pools|), i) < Distance(|pools|, cursor, i)
  {
    assert !IsBetween(|pools|, cursor, i, idx);
  }

  lemma {:induction false} StillAhead(
    pools: seq<Pool>, cursors: seq<nat>, probes: seq<Probe>, picked: seq<nat>, i: nat, k: nat)
    requires IsPickRun(pools, cursors, probes, picked) && i < |pools| && k <= |picked|
    requires forall m | 0 <= m < |picked| :: IsAvailable(pools, probes[m], i)
    requires forall m | 0 <= m < k :: picked[m] != i
    requires |picked| > 0
    ensures 0 <= Distance(|pools|, cursors[k], i) <= |pools| - 1 - k
    decreases k
  {
    assert IsNext(pools, cursors[0], probes[0], picked[0]);
    if k > 0 {
      StillAhead(pools, cursors, probes, picked, i, k - 1);
      assert IsNext(pools, cursors[k - 1], probes[k - 1], picked[k - 1]);
      PickApproaches(pools, cursors[k - 1], probes[k - 1], picked[k - 1], i);
    }
  }

  /**
    No starvation: a pool that is available at each of n consecutive picks of its tier of n pools is
    picked by one of them, whatever the probe says about the others.
  */
  lemma {:induction false} NoStarvation(
    pools: seq<Pool>, cursors: seq<nat>, probes: seq<Probe>, picked: seq<nat>, i: nat)
    requires IsPickRun(pools, cursors, probes, picked) && i < |pools| && |picked| >= |pools|
    requires forall m | 0 <= m < |picked| :: IsAvailable(pools, probes[m], i)
    ensures i in picked
  {
    if i !in picked {
      StillAhead(pools, cursors, probes, picked, i, |pools|);
    }
  }

  /** The bound is tight for every tier: with one pick fewer, any of its pools can still be waiting. */
  lemma OneFewerCanMiss(pools: seq<Pool>, i: nat)
    requires i < |pools|
    ensures exists cursors: seq<nat>, probes: seq<Probe>, picked: seq<nat> ::
      && IsPickRun(pools, cursors, probes, picked) && |picked| == |pools| - 1
      && (forall m | 0 <= m < |picked| :: IsAvailable(pools, probes[m], i)) && i !in picked
  {
    var n, start := |pools|, AfterPick(i, |pools|);
    var never: Probe := _ => false;
    var cursors := seq(n, k requires 0 <= k < n => Around(n, start, k));
    var probes, picked := seq(n - 1, _ => never), seq(n - 1, k requires 0 <= k < n - 1 => Around(n, start, k));
    forall k | 0 <= k < n - 1 ensures IsNext(pools, cursors[k], probes[k], picked[k]) {
      assert forall j | 0 <= j < n :: Distance(n, cursors[k], j) >= 0;
    }
    assert IsPickRun(pools, cursors, probes, picked);
  }

  function Count(picked: seq<nat>, i: nat): nat {
    if picked == [] then 0
    else Count(picked[..|picked| - 1], i) + if picked[|picked| - 1] == i then 1 else 0
  }

  /** From the cursor, going round, `i` comes before `j`. */
  function IsFirst(n: nat, cursor: nat, i: nat, j: nat): int {
    if IsBetween(n, cursor, i, j) then 1 else 0
  }

  /** Two pools that stay available are picked in turns: the lead of one over the other is told by the cursor alone. */
  lemma {:induction false} TakeTurns(
    pools: seq<Pool>, cursors: seq<nat>, probes: seq<Probe>, picked: seq<nat>, i: nat, j: nat)
    requires IsPickRun(pools, cursors, probes, picked)
    requires i < |pools| && j < |pools| && i != j
    requires forall m | 0 <= m < |picked| :: IsAvailable(pools, probes[m], i) && IsAvailable(pools, probes[m], j)
    requires |picked| > 0
    ensures Count(picked, i) - Count(picked, j) ==
            IsFirst(|pools|, cursors[0], i, j) - IsFirst(|pools|, cursors[|picked|], i, j)
    decreases |picked|
  {
    var k := |picked| - 1;
    assert IsNext(pools, cursors[k], probes[k], picked[k]);
    assert !IsBetween(|pools|, cursors[k], i, picked[k]) && !IsBetween(|pools|, cursors[k], j, picked[k]);
    if k > 0 {
      TakeTurns(pools, cursors[..|picked|], probes[..k], picked[..k], i, j);
    } else {
      assert picked[..0] == [];
    }
  }

  /** Fairness: in any window during which two pools stay available, their picks differ by at most one. */
  lemma {:induction false} Fairness(
    pools: seq<Pool>, cursors: seq<nat>, probes: seq<Probe>, picked: seq<nat>, i: nat, j: nat)
    requires IsPickRun(pools, cursors, probes, picked) && i < |pools| && j < |pools|
    requires forall m | 0 <= m < |picked| :: IsAvailable(pools, probes[m], i) && IsAvailable(pools, probes[m], j)
    ensures -1 <= Count(picked, i) - Count(picked, j) <= 1
  {
    if i != j && |picked| > 0 {
      TakeTurns(pools, cursors, probes, picked, i, j);
    }
  }

  // ---------------------------------------------------------------------------------------------
  // Runs of the router
  // ---------------------------------------------------------------------------------------------

  /** Picks of all tiers, one after the other, each starting from the cursors the one before left. */
  ghost predicate IsRouterRun(pools: map<Tier, seq<Pool>>, events: seq<PickEvent>) {
    && (forall k | 0 <= k < |events| :: IsPick(pools, events[k]))
    && (forall k | 0 <= k < |events| - 1 :: events[k + 1].before == CursorsAfter(pools, events[k]))
  }

  /** The picks of one tier that found a pool. */
  ghost function OfTier(events: seq<PickEvent>, tier: Tier): (r: seq<PickEvent>)
    ensures forall e | e in r :: e in events && e.tier == tier && e.picked.Some?
  {
    if events == [] then []
    else
      var last := events[|events| - 1];
      OfTier(events[..|events| - 1], tier) + if last.tier == tier && last.picked.Some? then [last] else []
  }

  ghost function Picked(events: seq<PickEvent>): (r: seq<nat>)
    requires forall e | e in events :: e.picked.Some?
    ensures |r| == |events|
  {
    seq(|events|, k requires 0 <= k < |events| => events[k].picked.value)
  }

  ghost function Probes(events: seq<PickEvent>): (r: seq<Probe>)
    ensures |r| == |events|
  {
    seq(|events|, k requires 0 <= k < |events| => events[k].limited)
  }

  /** Where the cursors stand after a run. */
  ghost function Final(pools: map<Tier, seq<Pool>>, events: seq<PickEvent>): map<Tier, nat>
    requires IsRouterRun(pools, events) && events != []
  {
    CursorsAfter(pools, events[|events| - 1])
  }

  lemma OneMorePick(
    pools: seq<Pool>, cursors: seq<nat>, probes: seq<Probe>, picked: seq<nat>, limited: Probe, idx: nat)
    requires IsPickRun(pools, cursors, probes, picked) && IsNext(pools, cursors[|cursors| - 1], limited, idx)
    requires idx < |pools|
    ensures IsPickRun(pools, cursors + [AfterPick(idx, |pools|)], probes + [limited], picked + [idx])
  {
    hide IsNext;
  }

  lemma LastOfTier(events: seq<PickEvent>, tier: Tier)
    requires events != []
    ensures events[|events| - 1].tier == tier && events[|events| - 1].picked.Some? ==>
      var e, front := events[|events| - 1], OfTier(events[..|events| - 1], tier);
      Picked(OfTier(events, tier)) == Picked(front) + [e.picked.value] &&
      Probes(OfTier(events, tier)) == Probes(front) + [e.limited]
    ensures events[|events| - 1].tier != tier || events[|events| - 1].picked.None? ==>
      OfTier(events, tier) == OfTier(events[..|events| - 1], tier)
  {
  }

  /** A pick is the first pool from its own tier's cursor, and moves that cursor alone. */
  lemma PickMoves(pools: map<Tier, seq<Pool>>, e: PickEvent, tier: Tier)
    requires IsPick(pools, e) && tier in e.before && PoolsOf(pools, tier) != []
    ensures tier in CursorsAfter(pools, e)
    ensures e.tier != tier || e.picked.None? ==> CursorsAfter(pools, e)[tier] == e.before[tier]
    ensures e.tier == tier && e.picked.Some? ==>
      e.picked.value < |PoolsOf(pools, tier)| &&
      IsNext(PoolsOf(pools, tier), Start(e.before[tier], |PoolsOf(pools, tier)|), e.limited, e.picked.value) &&
      CursorsAfter(pools, e)[tier] == AfterPick(e.picked.value, |PoolsOf(pools, tier)|) &&
      Start(CursorsAfter(pools, e)[tier], |PoolsOf(pools, tier)|) == AfterPick(e.picked.value, |PoolsOf(pools, tier)|)
  {
    if e.tier == tier && e.picked.Some? {
      NextInRange(PoolsOf(pools, tier), Start(e.before[tier], |PoolsOf(pools, tier)|), e.limited, e.picked.value);
      AfterPickStands(e.picked.value, |PoolsOf(pools, tier)|);
    }
  }

  /**
    Tiers do not disturb each other: however picks of other tiers, and failures, come in between, the
    picks of one tier in which some pool was found are a run of that tier alone.
  */
  lemma {:induction false} TierRunsAlone(pools: map<Tier, seq<Pool>>, events: seq<PickEvent>, tier: Tier)
      returns (cursors: seq<nat>)
    requires IsRouterRun(pools, events) && events != []
    requires tier in events[0].before && PoolsOf(pools, tier) != []
    ensures IsPickRun(PoolsOf(pools, tier), cursors, Probes(OfTier(events, tier)), Picked(OfTier(events, tier)))
    ensures tier in Final(pools, events)
    ensures cursors[|cursors| - 1] == Start(Final(pools, events)[tier], |PoolsOf(pools, tier)|)
    decreases |events|
  {
    hide IsNext, OfTier, Picked, Probes, IsPick, PoolsOf, Start, AfterPick, CursorsAfter;
    var n := |events| - 1;
    var last := events[n];
    var own := PoolsOf(pools, tier);
    var front := OfTier(events[..n], tier);
    LastOfTier(events, tier);
    if n == 0 {
      cursors := [Start(last.before[tier], |own|)];
      assert events[..n] == [];
      NoneOfTier(tier);
    } else {
      assert events[..n][0] == events[0];
      cursors := TierRunsAlone(pools, events[..n], tier);
      assert last.before == CursorsAfter(pools, events[n - 1]) by { assert last == events[n - 1 + 1]; }
    }
    PickMoves(pools, last, tier);
    if last.tier == tier && last.picked.Some? {
      OneMorePick(own, cursors, Probes(front), Picked(front), last.limited, last.picked.value);
      cursors := cursors + [AfterPick(last.picked.value, |own|)];
    }
  }

  lemma NoneOfTier(tier: Tier)
    ensures OfTier([], tier) == [] && Picked([]) == [] && Probes([]) == []
  {
  }

  lemma AfterPickStands(idx: nat, n: nat)
    requires idx < n
    ensures Start(AfterPick(idx, n), n) == AfterPick(idx, n)
  {
  }

  lemma NextInRange(pools: seq<Pool>, cursor: nat, limited: Probe, idx: nat)
    requires IsNext(pools, cursor, limited, idx)
    ensures idx < |pools|
  {
  }

  /** No starvation in the running router: n picks of a tier that find a pool reach every pool that stays available. */
  lemma {:induction false} RouterNeverStarves(
    pools: map<Tier, seq<Pool>>, events: seq<PickEvent>, tier: Tier, i: nat)
    requires IsRouterRun(pools, events) && events != [] && tier in events[0].before
    requires i < |PoolsOf(pools, tier)| && |OfTier(events, tier)| >= |PoolsOf(pools, tier)|
    requires forall e | e in OfTier(events, tier) :: IsAvailable(PoolsOf(pools, tier), e.limited, i)
    ensures exists e | e in OfTier(events, tier) :: e.picked == Some(i)
  {
    hide IsNext, OfTier;
    var own := OfTier(events, tier);
    var cursors := TierRunsAlone(pools, events, tier);
    NoStarvation(PoolsOf(pools, tier), cursors, Probes(own), Picked(own), i);
    var k :| 0 <= k < |own| && Picked(own)[k] == i;
    assert own[k] in own;
  }
}
