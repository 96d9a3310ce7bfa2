/** The predicted difficulty change and the two cached timestamps it is computed from. */
module Retarget {
  import opened Common

  const INTERVAL := 2016
  const TARGET_SECONDS := 600

  /** A full epoch budgets 2016 * 600 seconds but spans 2015 block intervals. */
  const PER_INTERVAL: real := 1_209_600.0 / 2015.0

  function Clamp(factor: real): real {
    if factor > 4.0 then 4.0 else if factor < 0.25 then 0.25 else factor
  }

  function EstimatePercent(inEpoch: int, elapsed: real): real {
    if inEpoch <= 0 || elapsed <= 0.0 then 0.0 else
      (Clamp(inEpoch as real * PER_INTERVAL / elapsed) - 1.0) * 100.0
  }

  lemma EstimateInConsensusRange(inEpoch: int, elapsed: real)
    ensures -75.0 <= EstimatePercent(inEpoch, elapsed) <= 300.0
  {
  }

  /** More time for the same blocks never predicts a higher difficulty. */
  lemma EstimateAntitone(inEpoch: int, e1: real, e2: real)
    requires 0.0 < e1 <= e2
    ensures EstimatePercent(inEpoch, e2) <= EstimatePercent(inEpoch, e1)
  {
    if inEpoch > 0 {
      QuotientFalls(inEpoch as real * PER_INTERVAL, e1, e2);
    }
  }

  lemma QuotientFalls(x: real, e1: real, e2: real)
    requires x > 0.0 && 0.0 < e1 <= e2
    ensures x / e2 <= x / e1
  {
    var f := x / e2;
    assert f * e2 == x;
    assert f >= 0.0;
    assert f * (e2 - e1) >= 0.0;
    assert f * e1 <= x;
    RealQuotient(x, e1, f);
  }

  /** On-target pace predicts no change, from the first block interval of an epoch to the last. */
  lemma OnTargetPaceIsZero(inEpoch: int)
    requires inEpoch > 0
    ensures EstimatePercent(inEpoch, inEpoch as real * PER_INTERVAL) == 0.0
  {
    var w := inEpoch as real * PER_INTERVAL;
    assert w > 0.0;
    SelfQuotient(w);
  }

  lemma SelfQuotient(x: real)
    requires x > 0.0
    ensures x / x == 1.0
  {
  }

  /** At the end of an epoch the estimate is the consensus adjustment itself. */
  lemma FullEpochIsConsensus(elapsed: real)
    requires elapsed > 0.0
    ensures EstimatePercent(2015, elapsed) == (Clamp((INTERVAL * TARGET_SECONDS) as real / elapsed) - 1.0) * 100.0
  {
  }

  lemma TimesFactor(inEpoch: int, elapsed: real, bound: real)
    requires elapsed > 0.0
    ensures inEpoch as real * PER_INTERVAL / elapsed > bound <==> inEpoch as real * PER_INTERVAL > bound * elapsed
    ensures inEpoch as real * PER_INTERVAL / elapsed < bound <==> inEpoch as real * PER_INTERVAL < bound * elapsed
  {
    RealQuotient(inEpoch as real * PER_INTERVAL, elapsed, bound);
  }

  lemma RealQuotient(x: real, y: real, bound: real)
    requires y > 0.0
    ensures x / y > bound <==> x > bound * y
    ensures x / y < bound <==> x < bound * y
  {
    var q := x / y;
    assert q * y == x;
    if q > bound {
      assert (q - bound) * y > 0.0;
    } else if q < bound {
      assert (bound - q) * y > 0.0;
    }
  }

  /**
   * The whole estimate, in terms of the 1209600 / 2015 seconds an interval is allowed: +300 from four
   * times too fast, -75 from four times too slow, the plain ratio between, and nothing without time or blocks.
   */
  lemma EstimateIs(inEpoch: int, elapsed: real)
    ensures inEpoch <= 0 || elapsed <= 0.0 ==> EstimatePercent(inEpoch, elapsed) == 0.0
    ensures inEpoch > 0 && elapsed > 0.0 ==>
              var allowed := inEpoch as real * (1209600.0 / 2015.0);
              EstimatePercent(inEpoch, elapsed) ==
                if allowed > 4.0 * elapsed then 300.0
                else if allowed < 0.25 * elapsed then -75.0
                else (allowed / elapsed - 1.0) * 100.0
  {
    if inEpoch > 0 && elapsed > 0.0 {
      TimesFactor(inEpoch, elapsed, 4.0);
      TimesFactor(inEpoch, elapsed, 0.25);
    }
  }

  /** Only the mean time of a block matters. */
  lemma EstimateDependsOnMean(j: int, k: int, mean: real)
    requires j > 0 && k > 0 && mean > 0.0
    ensures EstimatePercent(j, j as real * mean) == EstimatePercent(k, k as real * mean)
  {
    EstimateOfMean(j, mean);
    EstimateOfMean(k, mean);
  }

  lemma EstimateOfMean(k: int, mean: real)
    requires k > 0 && mean > 0.0
    ensures EstimatePercent(k, k as real * mean) == (Clamp(PER_INTERVAL / mean) - 1.0) * 100.0
  {
    var e := k as real * mean;
    MeanQuotient(k, mean);
    assert e > 0.0;
    assert EstimatePercent(k, e) == (Clamp(k as real * PER_INTERVAL / e) - 1.0) * 100.0;
    hide Clamp, EstimatePercent;
  }

  lemma MeanQuotient(k: int, mean: real)
    requires k > 0 && mean > 0.0
    ensures k as real * mean > 0.0 && k as real * PER_INTERVAL / (k as real * mean) == PER_INTERVAL / mean
  {
    var n, m, q := k as real, k as real * mean, PER_INTERVAL / mean;
    assert n > 0.0 && m > 0.0;
    assert q * mean == PER_INTERVAL;
    assert q * m == n * (q * mean);
    RealQuotientIs(n * PER_INTERVAL, m, q);
  }

  lemma RealQuotientIs(x: real, y: real, q: real)
    requires y > 0.0 && q * y == x
    ensures x / y == q
  {
  }

  // ---- the caches

  datatype Cache = Cache(epoch: int, startUnix: int, tipHash: string, tipUnix: int)

  const COLD := Cache(0, 0, "", 0)

  /** What a refresh learns: network and tip, and the header times it gets when it asks for them. */
  datatype Poll = Poll(network: string, blocks: int, bestHash: string, startTime: Option<int>, tipTime: Option<int>)

  /** The epoch is not the cached one, and its start is found. The cache does not say on which network it was. */
  predicate WritesStart(c: Cache, p: Poll) {
    (c.epoch != p.blocks / INTERVAL || c.startUnix == 0) && p.startTime.Some?
  }

  function NextCache(c: Cache, p: Poll): Cache {
    if p.blocks <= 0 || p.blocks % INTERVAL == 0 then c else
      var epoch := p.blocks / INTERVAL;
      var c1 := if WritesStart(c, p)
                then c.(epoch := epoch, startUnix := p.startTime.value) else c;
      if p.bestHash != "" && c1.tipHash != p.bestHash && p.tipTime.Some?
      then c1.(tipHash := p.bestHash, tipUnix := p.tipTime.value) else c1
  }

  function Predicted(blocks: int, startUnix: int, tipUnix: int): real {
    if blocks <= 0 || blocks % INTERVAL == 0 || startUnix <= 0 || tipUnix <= 0 then 0.0
    else EstimatePercent(blocks % INTERVAL, (tipUnix - startUnix) as real)
  }

  /** The blocks since the epoch began, in the time between the two headers; nothing at an epoch's first block or without a time. */
  lemma PredictedIs(epoch: nat, k: nat, startUnix: int, tipUnix: int)
    requires k < 2016
    ensures Predicted(2016 * epoch + k, startUnix, tipUnix)
            == if k == 0 || startUnix <= 0 || tipUnix <= 0 then 0.0 else EstimatePercent(k, (tipUnix - startUnix) as real)
  {
    hide EstimatePercent;
  }

  class RetargetCache {
    var retargetEpoch: int
    var retargetStartUnix: int
    var tipTimeHash: string
    var tipTimeUnix: int

    constructor ()
      ensures Value() == COLD
    {
      retargetEpoch, retargetStartUnix, tipTimeHash, tipTimeUnix := 0, 0, "", 0;
    }

    ghost function Value(): Cache
      reads this
    {
      Cache(retargetEpoch, retargetStartUnix, tipTimeHash, tipTimeUnix)
    }

    method Refresh(p: Poll) returns (percent: real)
      modifies this
      ensures Value() == NextCache(old(Value()), p)
      ensures percent == Predicted(p.blocks, Value().startUnix, Value().tipUnix)
    {
      percent := 0.0;
      if p.blocks > 0 {
        var epoch, inEpoch := p.blocks / INTERVAL, p.blocks % INTERVAL;
        if inEpoch > 0 {
          if (retargetEpoch != epoch || retargetStartUnix == 0) && p.startTime.Some? {
            retargetEpoch, retargetStartUnix := epoch, p.startTime.value;
          }
          if p.bestHash != "" && tipTimeHash != p.bestHash && p.tipTime.Some? {
            tipTimeHash, tipTimeUnix := p.bestHash, p.tipTime.value;
          }
          if retargetStartUnix > 0 && tipTimeUnix > 0 {
            percent := EstimatePercent(inEpoch, (tipTimeUnix - retargetStartUnix) as real);
          }
        }
      }
    }
  }

  /** The time of each network's epoch starts and of each block, all after 1970. */
  datatype Headers = Headers(startOf: (string, int) -> int, timeOf: string -> int)

  ghost predicate Timed(hd: Headers) {
    (forall n, e :: hd.startOf(n, e) > 0) && forall h :: hd.timeOf(h) > 0
  }

  /** Lookups answer for the polled network or fail. */
  ghost predicate Truthful(p: Poll, hd: Headers) {
    && (p.startTime.Some? ==> p.startTime.value == hd.startOf(p.network, p.blocks / INTERVAL))
    && (p.tipTime.Some? ==> p.tipTime.value == hd.timeOf(p.bestHash))
  }

  ghost predicate AllTruthful(polls: seq<Poll>, hd: Headers) {
    Timed(hd) && forall i :: 0 <= i < |polls| ==> Truthful(polls[i], hd)
  }

  function RunCache(polls: seq<Poll>): Cache {
    if polls == [] then COLD else NextCache(RunCache(polls[..|polls| - 1]), polls[|polls| - 1])
  }

  /** The network whose epoch start is cached. */
  function Origin(polls: seq<Poll>): string {
    if polls == [] then "" else
      var n := |polls| - 1;
      var p := polls[n];
      if p.blocks > 0 && p.blocks % INTERVAL != 0 && WritesStart(RunCache(polls[..n]), p) then p.network else Origin(polls[..n])
  }

  ghost predicate CacheHolds(c: Cache, network: string, hd: Headers) {
    && (if c.startUnix != 0 then c.startUnix == hd.startOf(network, c.epoch) else c.epoch == 0)
    && c.tipUnix == if c.tipHash != "" then hd.timeOf(c.tipHash) else 0
  }

  /** Failed lookups never corrupt the cache: it holds a true time of the epoch and tip it names. */
  lemma {:induction false} CacheStaysRight(polls: seq<Poll>, hd: Headers)
    requires AllTruthful(polls, hd)
    ensures CacheHolds(RunCache(polls), Origin(polls), hd)
  {
    if polls != [] {
      CacheStaysRight(polls[..|polls| - 1], hd);
    }
  }

  lemma {:induction false} OriginIsPolled(polls: seq<Poll>, network: string)
    requires forall i :: 0 <= i < |polls| ==> polls[i].network == network
    ensures RunCache(polls).startUnix == 0 || Origin(polls) == network
  {
    if polls != [] {
      OriginIsPolled(polls[..|polls| - 1], network);
    }
  }

  /** After any number of refreshes on one network with successful lookups, the cached timestamps predict what fresh ones would. */
  lemma CachedEqualsRecomputed(polls: seq<Poll>, network: string, hd: Headers)
    requires polls != [] && AllTruthful(polls, hd) && forall i :: 0 <= i < |polls| ==> polls[i].network == network
    requires var p := polls[|polls| - 1]; p.bestHash != "" && p.startTime.Some? && p.tipTime.Some?
    ensures var p, c := polls[|polls| - 1], RunCache(polls);
            Predicted(p.blocks, c.startUnix, c.tipUnix)
            == Predicted(p.blocks, hd.startOf(network, p.blocks / INTERVAL), hd.timeOf(p.bestHash))
  {
    CacheStaysRight(polls[..|polls| - 1], hd);
    OriginIsPolled(polls[..|polls| - 1], network);
  }

  /**
   * With lookups that may fail and networks that may switch, the epoch start is the right one exactly
   * when it is written now, or the cached one, of whatever network and epoch, has the same time.
   */
  lemma StartIsRightIff(polls: seq<Poll>, p: Poll, hd: Headers)
    requires AllTruthful(polls, hd) && Truthful(p, hd) && p.blocks > 0 && p.blocks % INTERVAL != 0
    ensures var c, right := RunCache(polls), hd.startOf(p.network, p.blocks / INTERVAL);
            NextCache(c, p).startUnix == right
            <==> ((c.epoch != p.blocks / INTERVAL || c.startUnix == 0) && p.startTime.Some?) || (c.startUnix != 0 && hd.startOf(Origin(polls), c.epoch) == right)
  {
    CacheStaysRight(polls, hd);
  }

  /** Likewise the tip time, which is cached by hash. */
  lemma TipIsRightIff(polls: seq<Poll>, p: Poll, hd: Headers)
    requires AllTruthful(polls, hd) && Truthful(p, hd) && p.blocks > 0 && p.blocks % INTERVAL != 0 && p.bestHash != ""
    ensures var c := RunCache(polls);
            NextCache(c, p).tipUnix == hd.timeOf(p.bestHash)
            <==> p.tipTime.Some? || (c.tipHash != "" && hd.timeOf(c.tipHash) == hd.timeOf(p.bestHash))
  {
    CacheStaysRight(polls, hd);
  }

  /** A time already cached for this epoch or tip is not looked up again, whatever the node would say. */
  lemma KnownTimesAreKept(c: Cache, p: Poll)
    ensures c.tipHash == p.bestHash ==> NextCache(c, p).tipUnix == c.tipUnix && NextCache(c, p).tipHash == c.tipHash
    ensures c.epoch == p.blocks / 2016 && c.startUnix != 0 ==> NextCache(c, p).startUnix == c.startUnix && NextCache(c, p).epoch == c.epoch
    ensures p.blocks <= 0 || p.blocks % 2016 == 0 ==> NextCache(c, p) == c
  {
  }

  /** A switch to another network in the epoch of the same number keeps the old network's start, although the right one could be had. */
  lemma SwitchKeepsStart(before: Poll, after: Poll, hd: Headers)
    requires Timed(hd) && Truthful(before, hd) && Truthful(after, hd)
    requires before.network == "main" && before.blocks == 2017 && before.startTime.Some?
    requires after.network == "testnet4" && after.blocks == 2018 && after.startTime.Some?
    ensures RunCache([before, after]).startUnix == hd.startOf("main", 1) && after.startTime == Some(hd.startOf("testnet4", 1))
  {
    assert [before, after][..1] == [before] && [before][..0] == [];
    assert RunCache([before]) == NextCache(COLD, before);
    assert RunCache([before, after]) == NextCache(RunCache([before]), after);
  }

  /** A new tip whose header cannot be read leaves the old tip's time in use. */
  lemma FailedLookupKeepsTip(before: Poll, after: Poll, hd: Headers)
    requires Timed(hd) && Truthful(before, hd) && before.blocks == 2017 && before.bestHash == "a" && before.tipTime.Some?
    requires after.blocks == 2018 && after.bestHash == "b" && after.tipTime.None?
    ensures RunCache([before, after]).tipUnix == hd.timeOf("a")
  {
    assert [before, after][..1] == [before] && [before][..0] == [];
    assert RunCache([before]) == NextCache(COLD, before);
    assert RunCache([before, after]) == NextCache(RunCache([before]), after);
  }
}
