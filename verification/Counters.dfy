/**
 * Pool counters that outlive ckpool and API restarts: a refresh adds the rise of ckpool's own counter
 * since the previous refresh, and a fall only moves the baseline.
 */
module Counters {
  import opened Common

  /** What a poll of ckpool reports. */
  datatype PoolStats = PoolStats(accepted: nat, shares: nat, rejectCount: nat)

  datatype Integrator = Integrator(total: int, last: int, baseline: bool)

  function Observe(i: Integrator, cur: int): Integrator {
    Integrator(if i.baseline && cur >= i.last then i.total + cur - i.last else i.total, cur, true)
  }

  class KvStore {
    var cumulativeWork: Option<int>
    var accepted: Option<int>
    var rejected: Option<int>

    constructor ()
      ensures cumulativeWork.None? && accepted.None? && rejected.None?
    {
      cumulativeWork, accepted, rejected := None, None, None;
    }
  }

  class PoolCounters {
    const store: KvStore
    var cumulativeShares: int
    var lastPoolShares: int
    var hasPoolSharesBaseline: bool
    var allTimeAccepted: int
    var allTimeRejected: int
    var lastPoolAcceptedRaw: int
    var lastPoolRejectedRaw: int
    var hasShareCountBaseline: bool

    /** A new process restores the totals and has no baseline. */
    constructor (store: KvStore)
      ensures this.store == store
      ensures Work() == Integrator(store.cumulativeWork.Or(0), 0, false)
      ensures RawAccepted() == Integrator(store.accepted.Or(0), 0, false)
      ensures RawRejected() == Integrator(store.rejected.Or(0), 0, false)
    {
      this.store := store;
      cumulativeShares := store.cumulativeWork.Or(0);
      allTimeAccepted := store.accepted.Or(0);
      allTimeRejected := store.rejected.Or(0);
      lastPoolShares, lastPoolAcceptedRaw, lastPoolRejectedRaw := 0, 0, 0;
      hasPoolSharesBaseline, hasShareCountBaseline := false, false;
    }

    ghost function Work(): Integrator
      reads this
    {
      Integrator(cumulativeShares, lastPoolShares, hasPoolSharesBaseline)
    }

    ghost function RawAccepted(): Integrator
      reads this
    {
      Integrator(allTimeAccepted, lastPoolAcceptedRaw, hasShareCountBaseline)
    }

    ghost function RawRejected(): Integrator
      reads this
    {
      Integrator(allTimeRejected, lastPoolRejectedRaw, hasShareCountBaseline)
    }

    /** The counter part of a refresh. `sessionReset` reports a ckpool restart seen in the raw share count. */
    method Refresh(pool: Option<PoolStats>, saveWork: bool, saveCounts: bool) returns (sessionReset: bool)
      modifies this, store
      ensures Work() == if pool.Some? then Observe(old(Work()), pool.value.accepted) else old(Work())
      ensures RawAccepted() == if pool.Some? then Observe(old(RawAccepted()), pool.value.shares) else old(RawAccepted())
      ensures RawRejected() == if pool.Some? then Observe(old(RawRejected()), pool.value.rejectCount) else old(RawRejected())
      ensures sessionReset <==> pool.Some? && old(RawAccepted()).baseline && pool.value.shares < old(RawAccepted()).last
      ensures store.cumulativeWork == if saveWork then Some(Work().total) else old(store.cumulativeWork)
      ensures store.accepted == if saveCounts then Some(RawAccepted().total) else old(store.accepted)
      ensures store.rejected == if saveCounts then Some(RawRejected().total) else old(store.rejected)
    {
      RefreshWork(pool, saveWork);
      sessionReset := RefreshCounts(pool, saveCounts);
    }

    method RefreshWork(pool: Option<PoolStats>, save: bool)
      modifies this`cumulativeShares, this`lastPoolShares, this`hasPoolSharesBaseline, store`cumulativeWork
      ensures Work() == if pool.Some? then Observe(old(Work()), pool.value.accepted) else old(Work())
      ensures store.cumulativeWork == if save then Some(Work().total) else old(store.cumulativeWork)
    {
      if pool.Some? {
        var cur := pool.value.accepted;
        if hasPoolSharesBaseline && cur >= lastPoolShares {
          cumulativeShares := cumulativeShares + (cur - lastPoolShares);
        }
        lastPoolShares := cur;
        hasPoolSharesBaseline := true;
      }
      if save {
        store.cumulativeWork := Some(cumulativeShares);
      }
    }

    method RefreshCounts(pool: Option<PoolStats>, save: bool) returns (sessionReset: bool)
      modifies this`allTimeAccepted, this`allTimeRejected, this`lastPoolAcceptedRaw, this`lastPoolRejectedRaw
      modifies this`hasShareCountBaseline, store`accepted, store`rejected
      ensures RawAccepted() == if pool.Some? then Observe(old(RawAccepted()), pool.value.shares) else old(RawAccepted())
      ensures RawRejected() == if pool.Some? then Observe(old(RawRejected()), pool.value.rejectCount) else old(RawRejected())
      ensures sessionReset <==> pool.Some? && old(RawAccepted()).baseline && pool.value.shares < old(RawAccepted()).last
      ensures store.accepted == if save then Some(RawAccepted().total) else old(store.accepted)
      ensures store.rejected == if save then Some(RawRejected().total) else old(store.rejected)
    {
      sessionReset := false;
      if pool.Some? {
        var curAcc, curRej := pool.value.shares, pool.value.rejectCount;
        if hasShareCountBaseline {
          if curAcc >= lastPoolAcceptedRaw {
            allTimeAccepted := allTimeAccepted + (curAcc - lastPoolAcceptedRaw);
          } else {
            sessionReset := true;
          }
          if curRej >= lastPoolRejectedRaw {
            allTimeRejected := allTimeRejected + (curRej - lastPoolRejectedRaw);
          }
        }
        lastPoolAcceptedRaw := curAcc;
        lastPoolRejectedRaw := curRej;
        hasShareCountBaseline := true;
      }
      if save {
        store.accepted := Some(allTimeAccepted);
        store.rejected := Some(allTimeRejected);
      }
    }
  }

  // ---- one process

  function ObserveAll(i: Integrator, obs: seq<int>): Integrator {
    if obs == [] then i else Observe(ObserveAll(i, obs[..|obs| - 1]), obs[|obs| - 1])
  }

  /** Sum of the positive differences between adjacent observations. */
  function Rises(obs: seq<int>): (r: int)
    ensures r >= 0
  {
    if |obs| < 2 then 0 else
      var n := |obs| - 1;
      Rises(obs[..n]) + if obs[n] >= obs[n - 1] then obs[n] - obs[n - 1] else 0
  }

  /** From a fresh baseline the total is the loaded value plus every observed rise. */
  lemma {:induction false} TotalIsLoadedPlusRises(loaded: int, obs: seq<int>)
    ensures var i := ObserveAll(Integrator(loaded, 0, false), obs);
            && i.total == loaded + Rises(obs)
            && (i.baseline <==> obs != [])
            && (obs != [] ==> i.last == obs[|obs| - 1])
  {
    if obs != [] {
      TotalIsLoadedPlusRises(loaded, obs[..|obs| - 1]);
    }
  }

  /** Without a ckpool restart the rises telescope: nothing is missed and nothing counted twice. */
  lemma {:induction false} SteadyCounterIsExact(obs: seq<int>)
    requires obs != [] && forall i :: 0 < i < |obs| ==> obs[i - 1] <= obs[i]
    ensures Rises(obs) == obs[|obs| - 1] - obs[0]
  {
    if |obs| > 1 {
      SteadyCounterIsExact(obs[..|obs| - 1]);
    }
  }

  // ---- every interleaving with ckpool

  /** `truth` is the work ever done; `counter` is what ckpool reports, from zero at each of its restarts. */
  datatype World = World(counter: int, truth: int, api: Integrator, stored: Option<int>)

  datatype Step =
    | Work(amount: nat)
    | PoolRestart
    | Poll(ok: bool, save: bool)
    | ApiRestart

  function Next(w: World, s: Step): World {
    match s
    case Work(k) => w.(counter := w.counter + k, truth := w.truth + k)
    case PoolRestart => w.(counter := 0)
    case Poll(ok, save) =>
      var api := if ok then Observe(w.api, w.counter) else w.api;
      w.(api := api, stored := if save then Some(api.total) else w.stored)
    case ApiRestart => w.(api := Integrator(w.stored.Or(0), 0, false))
  }

  function Run(w: World, steps: seq<Step>): World {
    if steps == [] then w else Next(Run(w, steps[..|steps| - 1]), steps[|steps| - 1])
  }

  /** Nothing counted beyond the truth, even after the current counter is added. */
  predicate Honest(w: World) {
    && 0 <= w.counter && 0 <= w.api.last && 0 <= w.truth
    && w.api.total <= w.truth && w.stored.Or(0) <= w.truth
    && (w.api.baseline ==> w.api.total + w.counter - w.api.last <= w.truth)
  }

  /** Whatever restarts go unnoticed, neither the total nor its saved copy ever exceeds the work done. */
  lemma {:induction false} NeverOvercounts(w: World, steps: seq<Step>)
    requires Honest(w)
    ensures Honest(Run(w, steps))
  {
    if steps != [] {
      NeverOvercounts(w, steps[..|steps| - 1]);
    }
  }

  /** Within one API process the total never decreases. */
  lemma {:induction false} TotalNeverDecreases(w: World, steps: seq<Step>)
    requires forall i :: 0 <= i < |steps| ==> !steps[i].ApiRestart?
    ensures Run(w, steps).api.total >= w.api.total
  {
    if steps != [] {
      TotalNeverDecreases(w, steps[..|steps| - 1]);
    }
  }

  /** The counter values the successful polls of a run saw. */
  function Polled(w: World, steps: seq<Step>): seq<int> {
    if steps == [] then [] else
      var n := |steps| - 1;
      Polled(w, steps[..n]) + if steps[n].Poll? && steps[n].ok then [Run(w, steps[..n]).counter] else []
  }

  /** Within one API process the total is the loaded value plus the rises between its polls. */
  lemma {:induction false} ProcessTotal(w: World, steps: seq<Step>)
    requires w.api == Integrator(w.stored.Or(0), 0, false)
    requires forall i :: 0 <= i < |steps| ==> !steps[i].ApiRestart?
    ensures Run(w, steps).api == ObserveAll(w.api, Polled(w, steps))
    ensures Run(w, steps).api.total == w.stored.Or(0) + Rises(Polled(w, steps))
  {
    PollsAreObserved(w, steps);
    TotalIsLoadedPlusRises(w.stored.Or(0), Polled(w, steps));
  }

  lemma {:induction false} PollsAreObserved(w: World, steps: seq<Step>)
    requires forall i :: 0 <= i < |steps| ==> !steps[i].ApiRestart?
    ensures Run(w, steps).api == ObserveAll(w.api, Polled(w, steps))
  {
    if steps != [] {
      var n := |steps| - 1;
      PollsAreObserved(w, steps[..n]);
      var before := Polled(w, steps[..n]);
      if steps[n].Poll? && steps[n].ok {
        assert (before + [Run(w, steps[..n]).counter])[..|before|] == before;
      } else {
        assert Polled(w, steps) == before;
      }
    }
  }

  /** A restart between polls that the counter outruns is not seen; the work before it is then lost. */
  lemma UnnoticedRestartUndercounts(w: World, a: nat, b: nat)
    requires w.api.baseline && w.api.last == w.counter && w.counter <= b
    ensures var end := Next(Next(Next(Next(w, Work(a)), PoolRestart), Work(b)), Poll(true, false));
            && end.truth == w.truth + a + b
            && end.api.total == w.api.total + b - w.counter
  {
  }

  // ---- the exact cost of pool restarts

  /** Work since the last pool restart among the steps, or since their beginning. */
  function WorkSince(steps: seq<Step>): nat {
    if steps == [] then 0 else
      var before := WorkSince(steps[..|steps| - 1]);
      match steps[|steps| - 1]
      case Work(k) => before + k
      case PoolRestart => 0
      case _ => before
  }

  /** Work before that restart, 0 without one. */
  function WorkBefore(steps: seq<Step>): nat {
    if steps == [] then 0 else
      var before := steps[..|steps| - 1];
      if steps[|steps| - 1].PoolRestart? then WorkBefore(before) + WorkSince(before) else WorkBefore(before)
  }

  predicate Restarts(steps: seq<Step>) {
    exists i :: 0 <= i < |steps| && steps[i].PoolRestart?
  }

  predicate BetweenPolls(steps: seq<Step>) {
    forall i :: 0 <= i < |steps| ==> steps[i].Work? || steps[i].PoolRestart?
  }

  lemma {:induction false} BetweenPollsEffect(w: World, steps: seq<Step>)
    requires BetweenPolls(steps)
    ensures Run(w, steps) == w.(counter := (if Restarts(steps) then 0 else w.counter) + WorkSince(steps),
                                truth := w.truth + WorkBefore(steps) + WorkSince(steps))
    ensures !Restarts(steps) ==> WorkBefore(steps) == 0
  {
    if steps != [] {
      BetweenPollsEffect(w, steps[..|steps| - 1]);
    }
  }

  function Min(a: int, b: int): int {
    if a < b then a else b
  }

  /** What the pool restarts between two polls lose: the work before the last one, and the old counter as far as the new one reaches. */
  function RestartCost(counter: int, steps: seq<Step>): int {
    if Restarts(steps) then WorkBefore(steps) + Min(WorkSince(steps), counter) else 0
  }

  /** Between two polls the total gains the work done less that cost, whether the restarts are noticed or not: it is exact if and only if they cost nothing. */
  lemma PollGainsIff(w: World, steps: seq<Step>, save: bool)
    requires w.api.baseline && w.api.last == w.counter >= 0 && BetweenPolls(steps)
    ensures var end := Next(Run(w, steps), Poll(true, save));
            && end.truth - w.truth == end.api.total - w.api.total + RestartCost(w.counter, steps)
            && (end.api.total - w.api.total == end.truth - w.truth <==> RestartCost(w.counter, steps) == 0)
  {
    BetweenPollsEffect(w, steps);
  }

  // ---- the exact shortfall of whole runs

  /** Work and pool restarts since the last successful poll or API restart. */
  function Gap(steps: seq<Step>): seq<Step> {
    if steps == [] then [] else
      var before := Gap(steps[..|steps| - 1]);
      match steps[|steps| - 1]
      case Work(k) => before + [Work(k)]
      case PoolRestart => before + [PoolRestart]
      case Poll(ok, _) => if ok then [] else before
      case ApiRestart => []
  }

  function Unpolled(gap: seq<Step>): nat {
    WorkBefore(gap) + WorkSince(gap)
  }

  /** What a step loses for good: at a poll the pool restarts before it, or all of a gap without baseline; at an API restart what was not polled or not saved. */
  function StepCost(w: World, gap: seq<Step>, s: Step): int {
    match s
    case Poll(ok, _) => if !ok then 0 else if w.api.baseline then RestartCost(w.api.last, gap) else Unpolled(gap)
    case ApiRestart => Unpolled(gap) + w.api.total - w.stored.Or(0)
    case _ => 0
  }

  function CostAt(w: World, steps: seq<Step>, i: int): int
    requires 0 <= i < |steps|
  {
    StepCost(Run(w, steps[..i]), Gap(steps[..i]), steps[i])
  }

  predicate EveryStepIsFree(w: World, steps: seq<Step>) {
    forall i :: 0 <= i < |steps| ==> CostAt(w, steps, i) == 0
  }

  function Costs(w: World, steps: seq<Step>): int {
    if steps == [] then 0 else
      var n := |steps| - 1;
      Costs(w, steps[..n]) + CostAt(w, steps, n)
  }

  /** A start from which nothing is unaccounted: counters are not negative, a baseline is fresh, and what is saved was counted. */
  predicate Fresh(w: World) {
    w.counter >= 0 && w.api.last >= 0 && (w.api.baseline ==> w.api.last == w.counter) && w.stored.Or(0) <= w.api.total
  }

  lemma GapGrows(gap: seq<Step>, s: Step)
    ensures WorkSince(gap + [s]) == (if s.PoolRestart? then 0 else WorkSince(gap) + if s.Work? then s.amount else 0)
    ensures WorkBefore(gap + [s]) == WorkBefore(gap) + if s.PoolRestart? then WorkSince(gap) else 0
    ensures Restarts(gap + [s]) <==> Restarts(gap) || s.PoolRestart?
  {
    var all := gap + [s];
    assert all[..|gap|] == gap && all[|gap|] == s;
    assert forall i :: 0 <= i < |gap| ==> all[i] == gap[i];
  }

  /** Work done and not in the total is what the steps lost and what is still to be polled. */
  lemma {:induction false} ShortfallIsSumOfCosts(w: World, steps: seq<Step>)
    requires Fresh(w)
    ensures var end, gap := Run(w, steps), Gap(steps);
            && end.truth - end.api.total == w.truth - w.api.total + Costs(w, steps) + Unpolled(gap)
            && (end.api.baseline ==> end.counter == (if Restarts(gap) then 0 else end.api.last) + WorkSince(gap))
            && (!Restarts(gap) ==> WorkBefore(gap) == 0)
            && end.counter >= 0 && end.api.last >= 0 && end.stored.Or(0) <= end.api.total
            && Costs(w, steps) >= 0
  {
    if steps != [] {
      var n := |steps| - 1;
      ShortfallIsSumOfCosts(w, steps[..n]);
      var gap, s := Gap(steps[..n]), steps[n];
      GapGrows(gap, s);
      hide WorkSince, WorkBefore, Restarts;
      assert WorkSince([]) == WorkBefore([]) == 0 && !Restarts([]) by {
        NoGap();
      }
    } else {
      NoGap();
    }
  }

  lemma NoGap()
    ensures WorkSince([]) == WorkBefore([]) == 0 && !Restarts([])
  {
  }

  /** Starting exact, the total stays exact over a run if and only if no step of it lost work and none is unpolled. */
  lemma TotalIsExactIff(w: World, steps: seq<Step>)
    requires Fresh(w) && w.api.total == w.truth
    ensures Run(w, steps).api.total == Run(w, steps).truth <==> Costs(w, steps) == 0 && Unpolled(Gap(steps)) == 0
    ensures Costs(w, steps) == 0 <==> EveryStepIsFree(w, steps)
  {
    ShortfallIsSumOfCosts(w, steps);
    CostsVanishIff(w, steps);
  }

  lemma {:induction false} CostsVanishIff(w: World, steps: seq<Step>)
    requires Fresh(w)
    ensures Costs(w, steps) == 0 <==> EveryStepIsFree(w, steps)
  {
    if steps != [] {
      var n := |steps| - 1;
      CostsVanishIff(w, steps[..n]);
      ShortfallIsSumOfCosts(w, steps[..n]);
      assert CostAt(w, steps, n) >= 0;
      FreeLast(w, steps);
      hide CostAt, EveryStepIsFree;
    }
  }

  lemma FreeLast(w: World, steps: seq<Step>)
    requires steps != []
    ensures var n := |steps| - 1;
            EveryStepIsFree(w, steps) <==> EveryStepIsFree(w, steps[..n]) && CostAt(w, steps, n) == 0
  {
    var n := |steps| - 1;
    forall i | 0 <= i < n
      ensures CostAt(w, steps[..n], i) == CostAt(w, steps, i)
    {
      assert steps[..n][..i] == steps[..i];
    }
    hide CostAt;
  }
}
