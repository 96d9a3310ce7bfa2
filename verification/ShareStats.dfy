/** The aggregator's share statistics and their key-value persistence across process restarts. */
module ShareStats {
  import opened Common
  import opened ShareLog
  import opened PowRecords

  /** Value of the histogram key. */
  datatype Histo = Histo(buckets: seq<int>, count: int, sum: real)

  /** The stored keys; None when a key was never written. */
  datatype Saved = Saved(reasons: Option<map<string, int>>, histo: Option<Histo>, best: Option<Pow>)

  /** `loadDone`: the once-only restore ran. `loaded`: saving is allowed. */
  datatype State = State(live: Live, loadDone: bool, loaded: bool, saved: Saved)

  /** `log` is the log a restore can scan for a best record, None without one. */
  datatype Op =
    | Ingested(e: Event, bestWriteFails: bool)
    | ResetSession
    | Load(reasonsFail: bool, histoFail: bool, bestFail: bool, log: Option<seq<Line>>, bestWriteFails: bool)
    | Save
    | Restart
    | Rebuild(lines: seq<Line>)

  function SaveOf(saved: Saved, t: Tally): Saved {
    saved.(reasons := Some(t.reasons), histo := Some(Histo(t.dist, t.count, t.sum)))
  }

  function Restored(t: Tally, saved: Saved, reasonsFail: bool, histoFail: bool): Tally {
    var t := if !reasonsFail && saved.reasons.Some? then t.(reasons := saved.reasons.value) else t;
    if histoFail || saved.histo.None? then t else
      t.(dist := saved.histo.value.buckets, count := saved.histo.value.count, sum := saved.histo.value.sum)
  }

  /** The best record of a log, if there is a log. */
  function BestOfLog(log: Option<seq<Line>>): Option<Pow> {
    if log.Some? then Pair(log.value).best else None
  }

  /** The best record read back, or else the one in memory. */
  function Recalled(best: Option<Pow>, saved: Saved, bestFail: bool): Option<Pow> {
    if !bestFail && saved.best.Some? then saved.best else best
  }

  predicate SixBuckets(s: State) {
    && |s.live.session.dist| == |s.live.alltime.dist| == 6
    && (s.saved.histo.Some? ==> |s.saved.histo.value.buckets| == 6)
  }

  function Apply(s: State, op: Op): (r: State)
    requires SixBuckets(s)
    ensures SixBuckets(r)
  {
    match op
    case Ingested(e, bestWriteFails) =>
      var live := Ingest(s.live, e);
      s.(live := live, saved := s.saved.(best := if Promotes(s.live, e) && !bestWriteFails then live.best else s.saved.best))
    case ResetSession => s.(live := s.live.(session := EMPTY))
    case Load(reasonsFail, histoFail, bestFail, log, bestWriteFails) =>
      if s.loadDone then s else
        var recalled := Recalled(s.live.best, s.saved, bestFail);
        var best := if recalled.None? then BestOfLog(log) else recalled;
        State(s.live.(alltime := Restored(s.live.alltime, s.saved, reasonsFail, histoFail), best := best), true, true,
              s.saved.(best := if recalled.None? && best.Some? && !bestWriteFails then best else s.saved.best))
    case Save => if s.loaded then s.(saved := SaveOf(s.saved, s.live.alltime)) else s
    case Restart => s.(live := FRESH, loadDone := false, loaded := false)
    case Rebuild(lines) =>
      if Scan(lines).count <= s.live.alltime.count then s else
        s.(live := s.live.(alltime := Scan(lines)), loaded := true, saved := SaveOf(s.saved, Scan(lines)))
  }

  /** The event confirms a parked record that beats the best one. */
  predicate Promotes(a: Live, e: Event) {
    e.Accept? && e.hash in a.pending && (a.best.None? || a.pending[e.hash].sdiff > a.best.value.sdiff)
  }

  class KvStore {
    var reasons: Option<map<string, int>>
    var histo: Option<Histo>
    var best: Option<Pow>

    constructor ()
      ensures reasons.None? && histo.None? && best.None?
    {
      reasons, histo, best := None, None, None;
    }
  }

  class ShareStatistics {
    const store: KvStore
    var session: Tally
    var alltime: Tally
    var pending: map<string, Pow>
    var best: Option<Pow>
    var loadDone: bool
    var statsLoaded: bool

    /** A new process over an existing store. */
    constructor (store: KvStore)
      requires store.histo.Some? ==> |store.histo.value.buckets| == 6
      ensures this.store == store
      ensures forall s: State :: SixBuckets(s) && s.saved == Saved(store.reasons, store.histo, store.best) ==> Value() == Apply(s, Restart)
    {
      this.store := store;
      session, alltime, pending, best := EMPTY, EMPTY, map[], None;
      loadDone, statsLoaded := false, false;
    }

    ghost function Value(): State
      reads this, store
    {
      State(Live(session, alltime, pending, best), loadDone, statsLoaded, Saved(store.reasons, store.histo, store.best))
    }

    method IngestShareEvent(e: Event, bestWriteFails: bool)
      requires SixBuckets(Value())
      modifies this, store`best
      ensures Value() == Apply(old(Value()), Ingested(e, bestWriteFails))
    {
      hide Bump, Bucket;
      match e
      case PowEvent(rec) =>
        if |pending| >= PENDING_LIMIT {
          pending := map[];
        }
        pending := pending[rec.hash := rec];
      case Reject(r) =>
        var reason := if r == "" then "Unknown" else r;
        session := session.(reasons := Bump(session.reasons, reason));
        alltime := alltime.(reasons := Bump(alltime.reasons, reason));
      case Accept(d, h) =>
        var b := Bucket(d);
        session := session.(dist := session.dist[b := session.dist[b] + 1], count := session.count + 1, sum := session.sum + d);
        alltime := alltime.(dist := alltime.dist[b := alltime.dist[b] + 1], count := alltime.count + 1, sum := alltime.sum + d);
        if h in pending {
          var pow := pending[h];
          pending := pending - {h};
          if best.None? || pow.sdiff > best.value.sdiff {
            best := Some(pow);
            if !bestWriteFails {
              store.best := best;
            }
          }
        }
    }

    method ResetSessionShareStats()
      requires SixBuckets(Value())
      modifies this
      ensures Value() == Apply(old(Value()), ResetSession)
    {
      session := EMPTY;
    }

    method LoadPersisted(reasonsFail: bool, histoFail: bool, bestFail: bool, log: Option<seq<Line>>, bestWriteFails: bool)
      requires SixBuckets(Value())
      modifies this, store`best
      ensures Value() == Apply(old(Value()), Load(reasonsFail, histoFail, bestFail, log, bestWriteFails))
    {
      hide Pair;
      if loadDone {
        return;
      }
      loadDone := true;
      if !bestFail && store.best.Some? {
        best := store.best;
      }
      if best.None? && log.Some? {
        var found, seen, unparseable := FindBestPowData(log.value);
        best := found;
        if found.Some? && !bestWriteFails {
          store.best := found;
        }
      }
      if !reasonsFail && store.reasons.Some? {
        alltime := alltime.(reasons := store.reasons.value);
      }
      if !histoFail && store.histo.Some? {
        var dp := store.histo.value;
        alltime := alltime.(dist := dp.buckets, count := dp.count, sum := dp.sum);
      }
      statsLoaded := true;
    }

    method PersistShareStats()
      requires SixBuckets(Value())
      modifies store`reasons, store`histo
      ensures Value() == Apply(old(Value()), Save)
    {
      if !statsLoaded {
        return;
      }
      store.reasons := Some(alltime.reasons);
      store.histo := Some(Histo(alltime.dist, alltime.count, alltime.sum));
    }

    method RebuildShareStatsFromLog(lines: seq<Line>) returns (adopted: bool, scanned: int)
      requires SixBuckets(Value())
      modifies this, store
      ensures scanned == Scan(lines).count && (adopted <==> scanned > old(alltime.count))
      ensures Value() == Apply(old(Value()), Rebuild(lines))
    {
      var accepted, sum, diffs, reasons := ScanShareStats(lines);
      var dist := Bucketed(diffs);
      if accepted <= alltime.count {
        return false, accepted;
      }
      alltime := Tally(reasons, dist, accepted, sum);
      statsLoaded := true;
      PersistShareStats();
      return true, accepted;
    }

    static method Bucketed(diffs: seq<real>) returns (dist: seq<int>)
      ensures dist == Histogram(diffs)
    {
      dist := [0, 0, 0, 0, 0, 0];
      for i := 0 to |diffs|
        invariant dist == Histogram(diffs[..i])
      {
        assert diffs[..i + 1] == diffs[..i] + [diffs[i]];
        HistogramSnoc(diffs[..i], diffs[i]);
        dist := dist[Bucket(diffs[i]) := dist[Bucket(diffs[i])] + 1];
      }
      assert diffs[..|diffs|] == diffs;
    }
  }

  // ---- every run

  function Run(s: State, ops: seq<Op>): (r: State)
    requires SixBuckets(s)
    ensures SixBuckets(r)
  {
    if ops == [] then s else Apply(Run(s, ops[..|ops| - 1]), ops[|ops| - 1])
  }

  ghost predicate SavedConserved(saved: Saved) {
    saved.histo.Some? ==> var h := saved.histo.value; Conserved(Tally(map[], h.buckets, h.count, h.sum))
  }

  /** Both histograms, and the stored one, account for every accepted share. */
  ghost predicate AllConserved(s: State) {
    Conserved(s.live.session) && Conserved(s.live.alltime) && SavedConserved(s.saved)
  }

  lemma ApplyConserves(s: State, op: Op)
    requires SixBuckets(s) && AllConserved(s)
    ensures AllConserved(Apply(s, op))
  {
    match op
    case Ingested(e, _) => CountConserves(s.live, e);
    case Rebuild(lines) => ScanConserves(lines); hide Scan;
    case _ =>
  }

  lemma CountConserves(a: Live, e: Event)
    requires Conserved(a.session) && Conserved(a.alltime)
    ensures Conserved(Ingest(a, e).session) && Conserved(Ingest(a, e).alltime)
  {
    hide Park, Better, Bump;
  }

  lemma {:induction false} RunsConserve(s: State, ops: seq<Op>)
    requires SixBuckets(s) && AllConserved(s)
    ensures AllConserved(Run(s, ops))
  {
    if ops != [] {
      var n := |ops| - 1;
      RunsConserve(s, ops[..n]);
      ApplyConserves(Run(s, ops[..n]), ops[n]);
      hide Apply, AllConserved;
    }
  }

  function SavedCount(saved: Saved): int {
    if saved.histo.None? then 0 else saved.histo.value.count
  }

  /** Once saving is allowed, memory holds at least what the store holds. */
  ghost predicate MemoryCoversStore(s: State) {
    && (s.loadDone ==> s.loaded)
    && s.live.alltime.count >= 0 && SavedCount(s.saved) >= 0
    && (s.loaded ==> s.live.alltime.count >= SavedCount(s.saved))
  }

  /** A restore can read the histogram or has nothing to lose; a rebuild is not from a log between memory and store. */
  ghost predicate Careful(s: State, op: Op) {
    match op
    case Load(_, histoFail, _, _, _) => s.loadDone || !histoFail || s.live.alltime.count >= SavedCount(s.saved)
    case Rebuild(lines) => !(s.live.alltime.count < Scan(lines).count < SavedCount(s.saved))
    case _ => true
  }

  /** In any state, the stored count shrinks in exactly two ways: a save of fewer shares, or a rebuild from fewer. */
  lemma ShrinksIff(s: State, op: Op)
    requires SixBuckets(s)
    ensures SavedCount(Apply(s, op).saved) < SavedCount(s.saved) <==>
              || (op.Save? && s.loaded && s.live.alltime.count < SavedCount(s.saved))
              || (op.Rebuild? && s.live.alltime.count < Scan(op.lines).count < SavedCount(s.saved))
  {
    hide Scan, Ingest, BestOfLog, Recalled, Promotes;
  }

  lemma StepKeepsStoreIff(s: State, op: Op)
    requires SixBuckets(s) && MemoryCoversStore(s)
    ensures MemoryCoversStore(Apply(s, op)) && SavedCount(Apply(s, op).saved) >= SavedCount(s.saved) <==> Careful(s, op)
  {
    hide Scan, Bump, Count, Park, Better, BestOfLog, Recalled, Promotes;
  }

  /** A restore lets the next save shrink the stored history exactly if it is not careful. */
  lemma RestoreIsSafeIff(s: State, op: Op)
    requires SixBuckets(s) && MemoryCoversStore(s) && op.Load?
    ensures SavedCount(Apply(Apply(s, op), Save).saved) >= SavedCount(s.saved) <==> Careful(s, op)
  {
    hide BestOfLog, Recalled;
  }

  /** Every step is careful in the state it meets. */
  ghost predicate AlwaysCareful(s: State, ops: seq<Op>)
    requires SixBuckets(s)
  {
    ops == [] ||
    (var n := |ops| - 1;
     Careful(Run(s, ops[..n]), ops[n]) && AlwaysCareful(s, ops[..n]))
  }

  /** At every step memory goes on covering the store, and the stored count does not shrink. */
  ghost predicate NeverShrinks(s: State, ops: seq<Op>)
    requires SixBuckets(s)
  {
    ops == [] ||
    (var n := |ops| - 1;
     && NeverShrinks(s, ops[..n]) && MemoryCoversStore(Run(s, ops))
     && SavedCount(Run(s, ops).saved) >= SavedCount(Run(s, ops[..n]).saved))
  }

  /** However ingest, saves, restarts and rebuilds interleave, the stored history is never put at risk exactly in careful runs. */
  lemma {:induction false} StoreIsKeptIff(s: State, ops: seq<Op>)
    requires SixBuckets(s) && MemoryCoversStore(s)
    ensures NeverShrinks(s, ops) <==> AlwaysCareful(s, ops)
    ensures NeverShrinks(s, ops) ==> MemoryCoversStore(Run(s, ops)) && SavedCount(Run(s, ops).saved) >= SavedCount(s.saved)
  {
    if ops != [] {
      var n := |ops| - 1;
      StoreIsKeptIff(s, ops[..n]);
      if MemoryCoversStore(Run(s, ops[..n])) {
        StepKeepsStoreIff(Run(s, ops[..n]), ops[n]);
      }
      hide Apply, MemoryCoversStore, Careful;
    }
  }

  /** The stored all-time share count never shrinks in a careful run. */
  lemma StoredCountNeverShrinks(s: State, ops: seq<Op>)
    requires SixBuckets(s) && MemoryCoversStore(s) && AlwaysCareful(s, ops)
    ensures MemoryCoversStore(Run(s, ops)) && SavedCount(Run(s, ops).saved) >= SavedCount(s.saved)
  {
    StoreIsKeptIff(s, ops);
  }

  /** Rebuilding before the restore replaces a longer stored history by any shorter log. */
  lemma EarlyRebuildShrinksStore(s: State, lines: seq<Line>)
    requires SixBuckets(s) && 0 < Scan(lines).count < SavedCount(s.saved)
    ensures SavedCount(Run(s, [Restart, Rebuild(lines)]).saved) == Scan(lines).count
  {
  }

  /** A restore whose histogram read fails lets the next save erase the history. */
  lemma FailedReadShrinksStore(s: State, load: Op, accept: Op)
    requires SixBuckets(s) && SavedCount(s.saved) > 1
    requires load.Load? && load.histoFail && accept.Ingested? && accept.e.Accept?
    ensures SavedCount(Run(s, [Restart, load, accept, Save]).saved) == 1
  {
    var c := Apply(Apply(Apply(s, Restart), load), accept);
    assert c.live.alltime.count == 1;
    RunFour(s, Restart, load, accept, Save);
    hide Run, Ingest;
  }

  lemma RunFour(s: State, a: Op, b: Op, c: Op, d: Op)
    requires SixBuckets(s)
    ensures Run(s, [a, b, c, d]) == Apply(Apply(Apply(Apply(s, a), b), c), d)
  {
    hide Apply, SixBuckets;
    var ops := [a, b, c, d];
    assert ops[..3][..2] == ops[..2] && ops[..2][..1] == ops[..1] && ops[..1][..0] == [];
    assert Run(s, ops[..1]) == Apply(Run(s, []), a);
    assert Run(s, ops[..2]) == Apply(Run(s, ops[..1]), b);
    assert Run(s, ops[..3]) == Apply(Run(s, ops[..2]), c);
  }

  // ---- the stored best record

  predicate NotWorse(a: Option<Pow>, b: Option<Pow>) {
    b.Some? ==> a.Some? && a.value.sdiff >= b.value.sdiff
  }

  /** After the restore, memory holds a record at least as good as the stored one. */
  ghost predicate BestCovers(s: State) {
    s.loadDone ==> NotWorse(s.live.best, s.saved.best)
  }

  /** A restore can read the record or finds one as good; no record is promoted over a better one not yet restored. */
  ghost predicate CarefulOfBest(s: State, op: Op) {
    match op
    case Load(_, _, bestFail, log, _) =>
      s.loadDone || !bestFail || NotWorse(if s.live.best.Some? then s.live.best else BestOfLog(log), s.saved.best)
    case Ingested(e, bestWriteFails) =>
      Promotes(s.live, e) && !bestWriteFails ==> NotWorse(Some(s.live.pending[e.hash]), s.saved.best)
    case _ => true
  }

  lemma StepKeepsBestIff(s: State, op: Op)
    requires SixBuckets(s) && BestCovers(s)
    ensures BestCovers(Apply(s, op)) && NotWorse(Apply(s, op).saved.best, s.saved.best) <==> CarefulOfBest(s, op)
  {
    hide Scan, Bump, Count, Park, BestOfLog, Restored;
  }

  ghost predicate AlwaysCarefulOfBest(s: State, ops: seq<Op>)
    requires SixBuckets(s)
  {
    ops == [] ||
    (var n := |ops| - 1;
     CarefulOfBest(Run(s, ops[..n]), ops[n]) && AlwaysCarefulOfBest(s, ops[..n]))
  }

  /** At every step memory goes on covering the stored best record, and that record gets no worse. */
  ghost predicate BestNeverFalls(s: State, ops: seq<Op>)
    requires SixBuckets(s)
  {
    ops == [] ||
    (var n := |ops| - 1;
     && BestNeverFalls(s, ops[..n]) && BestCovers(Run(s, ops))
     && NotWorse(Run(s, ops).saved.best, Run(s, ops[..n]).saved.best))
  }

  /** Across restarts and backfills the stored best record never gets worse exactly in runs careful of it. */
  lemma {:induction false} BestIsKeptIff(s: State, ops: seq<Op>)
    requires SixBuckets(s) && BestCovers(s)
    ensures BestNeverFalls(s, ops) <==> AlwaysCarefulOfBest(s, ops)
    ensures BestNeverFalls(s, ops) ==> BestCovers(Run(s, ops)) && NotWorse(Run(s, ops).saved.best, s.saved.best)
  {
    if ops != [] {
      var n := |ops| - 1;
      BestIsKeptIff(s, ops[..n]);
      if BestCovers(Run(s, ops[..n])) {
        StepKeepsBestIff(Run(s, ops[..n]), ops[n]);
      }
      hide Apply, BestCovers, CarefulOfBest;
    }
  }

  /** A restore that cannot read the stored record lets any lesser one replace it. */
  lemma FailedReadLosesBest(s: State, rec: Pow, d: real)
    requires SixBuckets(s) && s.saved.best.Some? && rec.sdiff < s.saved.best.value.sdiff
    ensures var ops := [Restart, Load(false, false, true, None, false),
                        Ingested(PowEvent(rec), false), Ingested(Accept(d, rec.hash), false)];
            Run(s, ops).saved.best == Some(rec)
  {
    var load, park, accept := Load(false, false, true, None, false), Ingested(PowEvent(rec), false), Ingested(Accept(d, rec.hash), false);
    RunFour(s, Restart, load, park, accept);
    hide Run;
    var b := Apply(Apply(s, Restart), load);
    assert b.live.best.None? && b.live.pending == map[];
    ParkThenPromote(b, rec, d);
  }

  lemma ParkThenPromote(s: State, rec: Pow, d: real)
    requires SixBuckets(s) && s.live.best.None? && s.live.pending == map[]
    ensures Apply(Apply(s, Ingested(PowEvent(rec), false)), Ingested(Accept(d, rec.hash), false)).saved.best == Some(rec)
  {
    hide Count, Bucket;
  }

  // ---- what is saved is what is read back

  /** A save, a restart and a restore that can read bring every figure back, and saving again changes nothing. */
  lemma RestoreReadsBack(s: State, log: Option<seq<Line>>, bestWriteFails: bool)
    requires SixBuckets(s) && s.loaded
    ensures var s' := Apply(Apply(Apply(s, Save), Restart), Load(false, false, false, log, bestWriteFails));
            && s'.live.alltime.reasons == s.live.alltime.reasons && s'.live.alltime.dist == s.live.alltime.dist
            && s'.live.alltime.count == s.live.alltime.count && s'.live.alltime.sum == s.live.alltime.sum
            && s'.live.session == EMPTY && s'.live.pending == map[]
            && (s.saved.best.Some? ==> s'.live.best == s.saved.best && s'.saved.best == s.saved.best)
            && (s.saved.best.None? ==> s'.live.best == BestOfLog(log))
            && Apply(s', Save) == s' && Apply(s', Load(false, false, false, log, bestWriteFails)) == s'
  {
    hide BestOfLog, Pair;
  }

  /** Each key is restored on its own: one that cannot be read or was never written leaves its figures alone. */
  lemma EachKeyAlone(s: State, reasonsFail: bool, histoFail: bool, bestFail: bool, log: Option<seq<Line>>, bestWriteFails: bool)
    requires SixBuckets(s) && !s.loadDone
    ensures var t, t' := s.live.alltime, Apply(s, Load(reasonsFail, histoFail, bestFail, log, bestWriteFails)).live.alltime;
            && t'.reasons == (if reasonsFail || s.saved.reasons.None? then t.reasons else s.saved.reasons.value)
            && (t'.dist, t'.count, t'.sum) == (if histoFail || s.saved.histo.None? then (t.dist, t.count, t.sum)
                                               else (s.saved.histo.value.buckets, s.saved.histo.value.count, s.saved.histo.value.sum))
  {
    hide BestOfLog, Pair;
  }

  // ---- what a process counts

  /** The events ingested by some operations. */
  function Ingests(ops: seq<Op>): seq<Event> {
    if ops == [] then [] else
      Ingests(ops[..|ops| - 1]) + if ops[|ops| - 1].Ingested? then [ops[|ops| - 1].e] else []
  }

  lemma IngestTallies(a: Live, e: Event)
    requires |a.session.dist| == |a.alltime.dist| == 6
    ensures Ingest(a, e).alltime == Tallied(a.alltime, e) && Ingest(a, e).session == Tallied(a.session, e)
  {
    hide AddAccept, AddReject, Park, Better;
  }

  lemma TallyAllSnoc(t: Tally, es: seq<Event>, e: Event)
    requires |t.dist| == 6
    ensures TallyAll(t, es + [e]) == Tallied(TallyAll(t, es), e)
  {
    assert (es + [e])[..|es|] == es;
    hide Tallied;
  }

  /** Once restored, a process adds exactly what it ingests to the all-time tally, whatever saves, resets and repeated restores lie between. */
  lemma {:induction false} ProcessAddsIngested(s: State, ops: seq<Op>)
    requires SixBuckets(s) && s.loadDone
    requires forall i :: 0 <= i < |ops| ==> !ops[i].Restart? && !ops[i].Rebuild?
    ensures Run(s, ops).loadDone && Run(s, ops).live.alltime == TallyAll(s.live.alltime, Ingests(ops))
  {
    if ops != [] {
      var before, op := ops[..|ops| - 1], ops[|ops| - 1];
      ProcessAddsIngested(s, before);
      if op.Ingested? {
        IngestTallies(Run(s, before).live, op.e);
        TallyAllSnoc(s.live.alltime, Ingests(before), op.e);
      } else {
        assert Ingests(before) + [] == Ingests(before);
      }
      hide Ingest, TallyAll, Tallied, Restored, BestOfLog, Recalled, Scan;
    }
  }

  /** The session tally counts exactly what was ingested since the last reset or restart. */
  lemma {:induction false} SessionCountsSinceReset(s: State, ops: seq<Op>)
    requires SixBuckets(s)
    requires forall i :: 0 <= i < |ops| ==> !ops[i].Restart? && !ops[i].ResetSession?
    ensures Run(s, ops).live.session == TallyAll(s.live.session, Ingests(ops))
    ensures Apply(s, ResetSession).live.session == Apply(s, Restart).live.session == Tally(map[], [0, 0, 0, 0, 0, 0], 0, 0.0)
    ensures Apply(s, ResetSession) == s.(live := s.live.(session := Apply(s, ResetSession).live.session))
  {
    if ops != [] {
      var before, op := ops[..|ops| - 1], ops[|ops| - 1];
      SessionCountsSinceReset(s, before);
      if op.Ingested? {
        IngestTallies(Run(s, before).live, op.e);
        TallyAllSnoc(s.live.session, Ingests(before), op.e);
      } else {
        assert Ingests(before) + [] == Ingests(before);
      }
      hide Ingest, TallyAll, Tallied, Restored, BestOfLog, Recalled, Scan;
    }
  }

  /** A rebuild takes over every figure of the log and stores it, or changes nothing; session and records stay. */
  lemma RebuildTakesLogOrNothing(s: State, lines: seq<Line>, reason: string)
    requires SixBuckets(s)
    ensures var s', ds := Apply(s, Rebuild(lines)), AcceptedDiffs(lines);
            if |ds| <= s.live.alltime.count then s' == s else
              && s'.live.alltime.count == |ds| && s'.live.alltime.sum == Total(ds) && s'.live.alltime.dist == Buckets(ds)
              && CountIn(s'.live.alltime.reasons, reason) == LinesFor(lines, reason)
              && s'.saved.reasons == Some(s'.live.alltime.reasons) && s'.saved.histo == Some(Histo(Buckets(ds), |ds|, Total(ds)))
              && s'.saved.best == s.saved.best && s'.live.session == s.live.session
              && s'.live.pending == s.live.pending && s'.live.best == s.live.best && s'.loaded && s'.loadDone == s.loadDone
  {
    TallyCountsDiffs(lines);
    ReasonsCountLines(lines, reason);
    hide Scan, AcceptedDiffs, Total, Buckets, LinesFor;
  }

  // ---- the stored rejection reasons

  /** No reason counts less in `m` than in the stored map. */
  ghost predicate CoversReasons(m: map<string, int>, stored: Option<map<string, int>>) {
    stored.Some? ==> forall k :: k in stored.value ==> k in m && m[k] >= stored.value[k]
  }

  ghost predicate ReasonsCovered(s: State) {
    (s.loadDone ==> s.loaded) && (s.loaded ==> CoversReasons(s.live.alltime.reasons, s.saved.reasons))
  }

  /** A restore can read the reasons or has nothing to lose; a rebuild that is adopted knows every stored reason as often. */
  ghost predicate CarefulOfReasons(s: State, op: Op) {
    match op
    case Load(reasonsFail, _, _, _, _) => s.loadDone || !reasonsFail || CoversReasons(s.live.alltime.reasons, s.saved.reasons)
    case Rebuild(lines) => Scan(lines).count > s.live.alltime.count ==> CoversReasons(Scan(lines).reasons, s.saved.reasons)
    case _ => true
  }

  lemma StepKeepsReasonsIff(s: State, op: Op)
    requires SixBuckets(s) && ReasonsCovered(s)
    ensures ReasonsCovered(Apply(s, op)) && (Apply(s, op).saved.reasons.Some? || s.saved.reasons.None?)
            && CoversReasons(Apply(s, op).saved.reasons.Or(map[]), s.saved.reasons)
            <==> CarefulOfReasons(s, op)
  {
    hide Scan, Park, Better, BestOfLog, Recalled, Promotes, Count;
  }

  ghost predicate AlwaysCarefulOfReasons(s: State, ops: seq<Op>)
    requires SixBuckets(s)
  {
    ops == [] ||
    (var n := |ops| - 1;
     CarefulOfReasons(Run(s, ops[..n]), ops[n]) && AlwaysCarefulOfReasons(s, ops[..n]))
  }

  /** At every step memory goes on covering the stored reasons, and none of them counts less. */
  ghost predicate ReasonsNeverFall(s: State, ops: seq<Op>)
    requires SixBuckets(s)
  {
    ops == [] ||
    (var n := |ops| - 1;
     && ReasonsNeverFall(s, ops[..n]) && ReasonsCovered(Run(s, ops))
     && (Run(s, ops).saved.reasons.Some? || Run(s, ops[..n]).saved.reasons.None?)
     && CoversReasons(Run(s, ops).saved.reasons.Or(map[]), Run(s, ops[..n]).saved.reasons))
  }

  /** No stored rejection count ever falls exactly in runs careful of the reasons. */
  lemma {:induction false} ReasonsAreKeptIff(s: State, ops: seq<Op>)
    requires SixBuckets(s) && ReasonsCovered(s)
    ensures ReasonsNeverFall(s, ops) <==> AlwaysCarefulOfReasons(s, ops)
    ensures ReasonsNeverFall(s, ops) ==> ReasonsCovered(Run(s, ops)) && CoversReasons(Run(s, ops).saved.reasons.Or(map[]), s.saved.reasons)
  {
    if ops != [] {
      var n := |ops| - 1;
      ReasonsAreKeptIff(s, ops[..n]);
      if ReasonsCovered(Run(s, ops[..n])) {
        StepKeepsReasonsIff(Run(s, ops[..n]), ops[n]);
      }
      hide Apply, ReasonsCovered, CarefulOfReasons;
    }
  }

  /** A longer log that knows nothing of a stored reason erases it, even after the restore. */
  lemma RebuildLosesReasons(s: State)
    requires SixBuckets(s) && s.live.alltime.count == 0 && s.saved.reasons == Some(map["Duplicate" := 3])
    ensures Apply(s, Rebuild([Accepted(1.0, "h")])).saved.reasons == Some(map[])
  {
    var lines := [Accepted(1.0, "h")];
    assert lines[..0] == [];
    assert Scan(lines) == AddAccept(EMPTY, 1.0);
  }
}
