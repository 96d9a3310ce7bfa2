/** Every run of solves, sweeps and polls: what the stored table and the shown history keep. */
module BlockRuns {
  import opened Common
  import opened BlockStore
  import opened SweepPolicy
  import opened SweepRowLaws
  import opened Reconcile

  ghost function Run(st: State, steps: seq<Step>): State {
    if steps == [] then st else Next(Run(st, steps[..|steps| - 1]), steps[|steps| - 1])
  }

  // ---- safety under arbitrary node and database failures

  lemma StepKeepsRecords(st: State, e: Step, h: int)
    requires h in st.table
    ensures h in Next(st, e).table && WriteOnce(st.table[h], Next(st, e).table[h])
  {
    if e.Sweep? {
      SweepIsWriteOnce(h, st.table[h], IsRecent(st.table, h), st.chain, e.inputs);
    }
  }

  /** No height is ever removed, and every recorded fact is written once. */
  lemma {:induction false} RecordsAreWriteOnce(st: State, steps: seq<Step>, h: int)
    requires h in st.table
    ensures h in Run(st, steps).table && WriteOnce(st.table[h], Run(st, steps).table[h])
  {
    if steps != [] {
      var mid := Run(st, steps[..|steps| - 1]);
      RecordsAreWriteOnce(st, steps[..|steps| - 1], h);
      StepKeepsRecords(mid, steps[|steps| - 1], h);
    }
  }

  /** Step `i` is a sweep that orphaned height `h`, on evidence about the hash `hash`. */
  ghost predicate OrphanedAt(st: State, steps: seq<Step>, i: int, h: int, hash: string)
    requires 0 <= i < |steps|
  {
    var before := Run(st, steps[..i]);
    && hash != "" && steps[i].Sweep? && h in before.table && !before.table[h].Orphaned()
    && before.chain != "" && !Foreign(before.table[h], before.chain)
    && IsRecent(before.table, h) && InWindow(before.table[h], steps[i].inputs)
    && ReorgEvidence(h, hash, steps[i].inputs)
    && (var after := Run(st, steps[..i + 1]).table; h in after && after[h].Orphaned())
  }

  /**
   * A row that is orphaned after a run, and was not before it, was marked by a sweep in which the
   * node reported another canonical hash and returned the very hash the row still carries.
   */
  lemma {:induction false} OrphansHaveEvidence(st: State, steps: seq<Step>, h: int)
    requires h in Run(st, steps).table && Run(st, steps).table[h].Orphaned()
    requires h !in st.table || !st.table[h].Orphaned()
    ensures exists i :: 0 <= i < |steps| && OrphanedAt(st, steps, i, h, Run(st, steps).table[h].hash)
  {
    var n := |steps| - 1;
    var prior, last := Run(st, steps[..n]), steps[n];
    if h in prior.table && prior.table[h].Orphaned() {
      OrphansHaveEvidence(st, steps[..n], h);
      var hash := prior.table[h].hash;
      var i :| 0 <= i < n && OrphanedAt(st, steps[..n], i, h, hash);
      OrphanedBefore(st, steps, i, h, hash);
      StepKeepsRecords(prior, last, h);
      assert Run(st, steps).table[h].hash == hash;
      hide Next, OrphanedAt;
    } else {
      SweepIsTheOrphaner(prior, last, h);
      assert steps[..n + 1] == steps;
      assert OrphanedAt(st, steps, n, h, Run(st, steps).table[h].hash) by {
        hide Next, ReorgEvidence, Foreign, InWindow, IsRecent;
      }
    }
  }

  lemma OrphanedBefore(st: State, steps: seq<Step>, i: int, h: int, hash: string)
    requires 0 <= i < |steps| - 1 && OrphanedAt(st, steps[..|steps| - 1], i, h, hash)
    ensures OrphanedAt(st, steps, i, h, hash)
  {
    hide Run, Next, ReorgEvidence, Foreign, InWindow, IsRecent;
    var n := |steps| - 1;
    assert steps[..n][..i] == steps[..i] && steps[..n][..i + 1] == steps[..i + 1] && steps[..n][i] == steps[i];
  }

  lemma SweepIsTheOrphaner(st: State, e: Step, h: int)
    requires h in Next(st, e).table && Next(st, e).table[h].Orphaned()
    requires h !in st.table || !st.table[h].Orphaned()
    ensures e.Sweep? && h in st.table && st.chain != "" && !Foreign(st.table[h], st.chain)
    ensures IsRecent(st.table, h) && InWindow(st.table[h], e.inputs)
    ensures ReorgEvidence(h, Next(st, e).table[h].hash, e.inputs) && Next(st, e).table[h].hash != ""
  {
    if e.Sweep? && h in st.table && !st.table[h].Orphaned() {
      OrphaningNeedsEvidence(h, st.table[h], IsRecent(st.table, h), st.chain, e.inputs);
    }
    hide SweptRow, ReorgEvidence, Foreign, InWindow, IsRecent;
  }

  /** Step `i` is a sweep that cleared the mark of height `h`, on evidence about the hash `hash`. */
  ghost predicate ClearedAt(st: State, steps: seq<Step>, i: int, h: int, hash: string)
    requires 0 <= i < |steps|
  {
    var before, after := Run(st, steps[..i]), Run(st, steps[..i + 1]).table;
    && hash != "" && steps[i].Sweep? && h in before.table && before.table[h].Orphaned()
    && before.chain != "" && IsRecent(before.table, h) && InWindow(before.table[h], steps[i].inputs)
    && ClearEvidence(h, before.table[h], hash, before.chain, steps[i].inputs)
    && h in after && !after[h].Orphaned()
  }

  /**
   * A row orphaned before a run and not after it was cleared by a sweep in which it carried another
   * network's stamp, or the node did not return it, or named the very hash it still carries as canonical.
   */
  lemma {:induction false} ClearedMarksHaveEvidence(st: State, steps: seq<Step>, h: int)
    requires h in st.table && st.table[h].Orphaned()
    requires h in Run(st, steps).table && !Run(st, steps).table[h].Orphaned()
    ensures exists i :: 0 <= i < |steps| && ClearedAt(st, steps, i, h, Run(st, steps).table[h].hash)
  {
    var n := |steps| - 1;
    var prior, last := Run(st, steps[..n]), steps[n];
    RecordsAreWriteOnce(st, steps[..n], h);
    if !prior.table[h].Orphaned() {
      ClearedMarksHaveEvidence(st, steps[..n], h);
      var hash := prior.table[h].hash;
      var i :| 0 <= i < n && ClearedAt(st, steps[..n], i, h, hash);
      ClearedBefore(st, steps, i, h, hash);
      StepKeepsRecords(prior, last, h);
      assert Run(st, steps).table[h].hash == hash;
      hide Next, ClearedAt;
    } else {
      SweepIsTheClearer(prior, last, h);
      assert steps[..n + 1] == steps;
      assert ClearedAt(st, steps, n, h, Run(st, steps).table[h].hash) by {
        hide Next, ClearEvidence, InWindow, IsRecent;
      }
    }
  }

  lemma ClearedBefore(st: State, steps: seq<Step>, i: int, h: int, hash: string)
    requires 0 <= i < |steps| - 1 && ClearedAt(st, steps[..|steps| - 1], i, h, hash)
    ensures ClearedAt(st, steps, i, h, hash)
  {
    hide Run, Next, ClearEvidence, InWindow, IsRecent;
    var n := |steps| - 1;
    assert steps[..n][..i] == steps[..i] && steps[..n][..i + 1] == steps[..i + 1] && steps[..n][i] == steps[i];
  }

  lemma SweepIsTheClearer(st: State, e: Step, h: int)
    requires h in st.table && st.table[h].Orphaned() && h in Next(st, e).table && !Next(st, e).table[h].Orphaned()
    ensures e.Sweep? && st.chain != "" && IsRecent(st.table, h) && InWindow(st.table[h], e.inputs)
    ensures ClearEvidence(h, st.table[h], Next(st, e).table[h].hash, st.chain, e.inputs) && Next(st, e).table[h].hash != ""
  {
    if e.Sweep? {
      ClearingNeedsEvidence(h, st.table[h], IsRecent(st.table, h), st.chain, e.inputs);
    }
    hide SweptRow, ClearEvidence, InWindow, IsRecent;
  }

  // ---- sweeps that do nothing

  /** A sweep whose writes all fail leaves table and history alone, entry for entry. */
  lemma FailedWritesChangeNothing(st: State, s: Inputs)
    requires forall p, h :: s.writeFails(p, h)
    ensures Next(st, Sweep(s)) == st
  {
    if st.chain != "" {
      forall h | h in st.table
        ensures SweptRow(h, st.table[h], IsRecent(st.table, h), st.chain, s) == st.table[h]
      {
        FailedWritesKeepRow(h, st.table[h], IsRecent(st.table, h), st.chain, s);
      }
      hide SweptRow, FirstPass, VerdictOf;
      assert SweptTable(st.table, st.chain, s) == st.table;
      assert !Reloads(st.table, st.chain, s);
    }
  }

  lemma FailedWritesKeepRow(h: int, r: Row, recent: bool, cur: string, s: Inputs)
    requires forall p, h :: s.writeFails(p, h)
    ensures SweptRow(h, r, recent, cur, s) == r
  {
  }

  /** While the node is unreachable no network is known, and sweeps do nothing. */
  lemma UnreachableNodeStopsSweeps(st: State, s: Inputs)
    ensures var st' := Next(Next(st, Poll("")), Sweep(s));
            st'.table == st.table && st'.ring == st.ring && st'.confirmed == st.confirmed && st'.chain == ""
  {
  }

  // ---- what a solve leaves behind

  /** A solve at a new height is stored with the current chain, the hash the node named, and what the block of that hash says. */
  lemma SolveIsRecorded(st: State, e: Step)
    requires e.Solve? && e.height !in st.table && !e.insertFails
    ensures var st', blk := Next(st, e), if e.hashNow.Some? then e.blockNow(e.hashNow.value) else None;
            && st'.table.Keys == st.table.Keys + {e.height}
            && (forall k :: k in st.table ==> st'.table[k] == st.table[k])
            && (var row := st'.table[e.height];
                && row.chain == st.chain && row.source == "logmon" && row.shareDiff == e.shareDiff
                && row.foundAt == e.seenNanos / NANOS && !row.Orphaned()
                && row.hash == (if e.hashNow.Some? then e.hashNow.value else "")
                && row.reward == (if blk.Some? then blk.value.reward else 0)
                && row.miner == (if blk.Some? then MinerFromCoinbase(blk.value.address, e.workers) else ""))
  {
    hide MinerFromCoinbase;
  }

  /** The history's last entry shows the same, also when the insert failed; a replay shows nothing. */
  lemma SolveIsShown(st: State, e: Step)
    requires e.Solve?
    ensures var ring, blk := Next(st, e).ring, if e.hashNow.Some? then e.blockNow(e.hashNow.value) else None;
            if !e.insertFails && e.height in st.table then Next(st, e) == st else
              && |ring| == (if |st.ring| < MAX_BLOCK_HISTORY then |st.ring| + 1 else if |st.ring| == MAX_BLOCK_HISTORY then |st.ring| else MAX_BLOCK_HISTORY)
              && Next(st, e).confirmed == st.confirmed + 1
              && (var rec := ring[|ring| - 1];
                  && rec.height == e.height && rec.chain == st.chain && rec.foundNanos == e.seenNanos
                  && rec.orphanedAt.None? && rec.shareDiff == e.shareDiff
                  && rec.hash == (if e.hashNow.Some? then e.hashNow.value else "")
                  && rec.reward == (if blk.Some? then blk.value.reward else 0)
                  && rec.miner == (if blk.Some? then MinerFromCoinbase(blk.value.address, e.workers) else ""))
  {
    hide MinerFromCoinbase;
  }

  /** A row is in the history exactly if fewer than 256 heights lie above it. */
  lemma ShownIffNewest(t: Table, h: int)
    requires h in t
    ensures (exists i :: 0 <= i < |StoreView(t)| && StoreView(t)[i] == RecordAt(t, h)) <==> |Above(t.Keys, h)| < 256
  {
    var hs, v := Newest(t.Keys, MAX_BLOCK_HISTORY), StoreView(t);
    NewestIffFewAbove(t.Keys, MAX_BLOCK_HISTORY, h);
    if h in hs {
      var k :| 0 <= k < |hs| && hs[k] == h;
      assert v[|hs| - 1 - k] == RecordAt(t, h);
    }
    if i :| 0 <= i < |v| && v[i] == RecordAt(t, h) {
      assert v[i] == RecordAt(t, hs[|hs| - 1 - i]);
      assert hs[|hs| - 1 - i] in hs;
    }
  }

  /** A history entry read back from the store holds the row's own fields, its mark only if orphaned. */
  lemma EntryShowsRow(h: int, row: Row)
    ensures var rec := ToRecord(Stored(h, row));
            && rec.height == h && ToRow(rec) == row.(orphanedAt := 0)
            && rec.orphanedAt == if row.orphanedAt > 0 then Some(row.orphanedAt) else None
  {
  }

  // ---- the confirmed counter

  lemma StepAddsHeight(st: State, e: Step)
    ensures Next(st, e).table.Keys == st.table.Keys + if e.Solve? && !e.insertFails then {e.height} else {}
  {
  }

  lemma StepCountsNewHeight(st: State, e: Step)
    ensures Next(st, e).confirmed - |Next(st, e).table.Keys|
            == st.confirmed - |st.table.Keys| + if e.Solve? && e.insertFails then 1 else 0
  {
    StepAddsHeight(st, e);
    if e.Sweep? {
      assert Next(st, e).table.Keys == st.table.Keys;
    }
  }

  /** Heights of the solves whose insert did not fail. */
  ghost function SolvedHeights(steps: seq<Step>): set<int> {
    set i | 0 <= i < |steps| && steps[i].Solve? && !steps[i].insertFails :: steps[i].height
  }

  function FailedInserts(steps: seq<Step>): nat {
    if steps == [] then 0 else
      var e := steps[|steps| - 1];
      FailedInserts(steps[..|steps| - 1]) + if e.Solve? && e.insertFails then 1 else 0
  }

  lemma SolvedHeightsLast(steps: seq<Step>)
    requires steps != []
    ensures var e := steps[|steps| - 1];
            SolvedHeights(steps) == SolvedHeights(steps[..|steps| - 1]) + if e.Solve? && !e.insertFails then {e.height} else {}
  {
    var n := |steps| - 1;
    assert forall i :: 0 <= i < n ==> steps[..n][i] == steps[i];
  }

  /** The stored heights are the earlier ones and those whose insert succeeded. */
  lemma {:induction false} HeightsComeFromSolves(st: State, steps: seq<Step>)
    ensures Run(st, steps).table.Keys == st.table.Keys + SolvedHeights(steps)
  {
    if steps != [] {
      var n := |steps| - 1;
      HeightsComeFromSolves(st, steps[..n]);
      StepAddsHeight(Run(st, steps[..n]), steps[n]);
      SolvedHeightsLast(steps);
    }
  }

  lemma {:induction false} ConfirmedTracksTable(st: State, steps: seq<Step>)
    ensures Run(st, steps).confirmed - |Run(st, steps).table.Keys| == st.confirmed - |st.table.Keys| + FailedInserts(steps)
  {
    if steps != [] {
      var n := |steps| - 1;
      ConfirmedTracksTable(st, steps[..n]);
      StepCountsNewHeight(Run(st, steps[..n]), steps[n]);
    }
  }

  /**
   * However often solves are replayed, the counter grows by the number of heights newly stored and, once
   * more, for every insert that failed: it is exact if and only if none did.
   */
  lemma ConfirmedCountsNewHeights(st: State, steps: seq<Step>)
    ensures var counted := Run(st, steps).confirmed - st.confirmed;
            var stored := |st.table.Keys + SolvedHeights(steps)| - |st.table|;
            && counted == stored + FailedInserts(steps)
            && (counted == stored <==> forall i :: 0 <= i < |steps| && steps[i].Solve? ==> !steps[i].insertFails)
  {
    HeightsComeFromSolves(st, steps);
    ConfirmedTracksTable(st, steps);
    NoFailedInsertsIff(steps);
  }

  lemma {:induction false} NoFailedInsertsIff(steps: seq<Step>)
    ensures FailedInserts(steps) == 0 <==> forall i :: 0 <= i < |steps| && steps[i].Solve? ==> !steps[i].insertFails
  {
    if steps != [] {
      var n := |steps| - 1;
      NoFailedInsertsIff(steps[..n]);
      assert forall i :: 0 <= i < n ==> steps[..n][i] == steps[i];
    }
  }

  // ---- the shown history follows the store

  /** Store rows keep whole seconds; history entries from events keep the full clock reading. */
  function Truncated(r: Record): Record {
    r.(foundNanos := r.foundNanos / NANOS * NANOS)
  }

  ghost predicate Shows(ring: seq<Record>, view: seq<Record>) {
    && |ring| == |view|
    && forall i :: 0 <= i < |ring| ==> Truncated(ring[i]) == view[i]
  }

  ghost predicate Coherent(st: State) {
    Shows(st.ring, StoreView(st.table))
  }

  lemma ReloadIsCoherent(t: Table)
    ensures Shows(StoreView(t), StoreView(t))
  {
    var v := StoreView(t);
    forall i | 0 <= i < |v|
      ensures Truncated(v[i]) == v[i]
    {
      assert v[i].foundNanos % NANOS == 0;
    }
  }

  lemma OldestFirstInsert(t: Table, h: int, row: Row, hs: seq<int>)
    requires forall i :: 0 <= i < |hs| ==> hs[i] in t && hs[i] != h
    ensures OldestFirst(t[h := row], [h] + hs) == OldestFirst(t, hs) + [ToRecord(Stored(h, row))]
  {
    var v, v' := OldestFirst(t, hs), OldestFirst(t[h := row], [h] + hs);
    forall i | 0 <= i < |hs|
      ensures v'[i] == v[i]
    {
      var k := hs[|hs| - 1 - i];
      assert ([h] + hs)[|hs| - i] == k;
      assert RecordAt(t[h := row], k) == RecordAt(t, k);
    }
  }

  lemma OldestFirstPrefix(t: Table, hs: seq<int>, n: nat)
    requires n <= |hs| && forall i :: 0 <= i < |hs| ==> hs[i] in t
    ensures OldestFirst(t, hs[..n]) == OldestFirst(t, hs)[|hs| - n..]
  {
  }

  /** A new top height goes to the end of the view; a full view loses its first entry. */
  lemma ViewAfterInsert(t: Table, h: int, row: Row)
    requires forall k :: k in t ==> k < h
    ensures var v := StoreView(t);
            StoreView(t[h := row]) == v[if |v| < MAX_BLOCK_HISTORY then 0 else 1..] + [ToRecord(Stored(h, row))]
  {
    var a, b := Newest(t.Keys, MAX_BLOCK_HISTORY), Newest(t.Keys, MAX_BLOCK_HISTORY - 1);
    assert t[h := row].Keys == t.Keys + {h};
    NewestAddGreatest(t.Keys, MAX_BLOCK_HISTORY, h);
    NewestPrefix(t.Keys, MAX_BLOCK_HISTORY);
    OldestFirstPrefix(t, a, |b|);
    OldestFirstInsert(t, h, row, b);
  }

  lemma NewestPrefix(s: set<int>, n: nat)
    requires n > 0
    ensures var a, b := Newest(s, n), Newest(s, n - 1);
            |b| <= |a| && b == a[..|b|]
  {
  }

  lemma GreatestFirst(s: set<int>, n: nat)
    requires s != {} && n > 0
    ensures |Newest(s, n)| > 0 && Newest(s, n)[0] == Greatest(s)
  {
  }

  lemma AppendFollowsInsert(ring: seq<Record>, t: Table, rec: Record)
    requires Shows(ring, StoreView(t)) && forall k :: k in t ==> k < rec.height
    requires rec.orphanedAt.None?
    ensures Shows(Append(ring, rec), StoreView(t[rec.height := ToRow(rec)]))
  {
    ViewAfterInsert(t, rec.height, ToRow(rec));
    var v, v', ring' := StoreView(t), StoreView(t[rec.height := ToRow(rec)]), Append(ring, rec);
    var lost := if |v| < MAX_BLOCK_HISTORY then 0 else 1;
    assert |ring'| == |v'|;
    assert Truncated(rec) == ToRecord(Stored(rec.height, ToRow(rec)));
    forall i | 0 <= i < |v'|
      ensures Truncated(ring'[i]) == v'[i]
    {
      if i < |v| - lost {
        assert ring'[i] == ring[i + lost];
      } else {
        assert ring'[i] == rec;
      }
    }
  }

  lemma LateHeightBreaksHistory(ring: seq<Record>, t: Table, rec: Record, k: int)
    requires k in t && k > rec.height
    ensures !Shows(Append(ring, rec), StoreView(t[rec.height := ToRow(rec)]))
  {
    var t' := t[rec.height := ToRow(rec)];
    var hs, v', ring' := Newest(t'.Keys, MAX_BLOCK_HISTORY), StoreView(t'), Append(ring, rec);
    assert k in t'.Keys;
    GreatestFirst(t'.Keys, MAX_BLOCK_HISTORY);
    assert v'[|v'| - 1] == RecordAt(t', hs[0]);
    assert ring'[|ring'| - 1] == rec;
  }

  /** A block shown but not stored puts the history out of step, full or not. */
  lemma FailedInsertBreaksHistory(ring: seq<Record>, t: Table, rec: Record)
    requires Shows(ring, StoreView(t))
    ensures !Shows(Append(ring, rec), StoreView(t))
  {
    var v, ring' := StoreView(t), Append(ring, rec);
    if |ring| == MAX_BLOCK_HISTORY {
      var hs := Newest(t.Keys, MAX_BLOCK_HISTORY);
      assert ring'[0] == ring[1];
      assert v[0] == RecordAt(t, hs[|v| - 1]) && v[1] == RecordAt(t, hs[|v| - 2]);
      assert hs[|v| - 2] > hs[|v| - 1];
    }
  }

  /** A solve that appends keeps history and store equal exactly when it is stored and tops all stored heights. */
  lemma AppendStaysCoherentIff(st: State, e: Step)
    requires Coherent(st) && e.Solve? && (e.insertFails || e.height !in st.table)
    ensures Coherent(Next(st, e)) <==> !e.insertFails && forall k :: k in st.table ==> k < e.height
  {
    var rec := Found(e, st.chain);
    if e.insertFails {
      FailedInsertBreaksHistory(st.ring, st.table, rec);
    } else if k :| k in st.table && k >= e.height {
      LateHeightBreaksHistory(st.ring, st.table, rec, k);
    } else {
      AppendFollowsInsert(st.ring, st.table, rec);
    }
  }

  /** Without a read failure, a sweep that changed anything reloads the history. */
  lemma QuietSweepChangesNothing(t: Table, cur: string, s: Inputs)
    requires !s.recentFails && !s.reloadFails && !Reloads(t, cur, s)
    ensures SweptTable(t, cur, s) == t
  {
  }

  /** Applying the verdict of pass `p` on the copy `b` changes what the history shows of the row. */
  predicate ShowsVerdict(p: Pass, h: int, b: Row, cur: string, s: Inputs) {
    && !s.writeFails(p, h)
    && match VerdictOf(p, h, b, cur, s)
       case Keep => false
       case Orphan => s.now > 0
       case Restamp(c) => c != b.chain
       case Clear => true
       case ClearRestamp(_) => true
  }

  /** The sweep changes what the history shows of the row: by enriching it, or by a verdict of a later pass. */
  predicate ShowsChange(h: int, r: Row, recent: bool, cur: string, s: Inputs) {
    || (!s.missingFails && NeedsEnrichment(r, s.since) && EnrichWrites(h, r, cur, s))
    || (recent && !s.recentFails
        && (var b := FirstPass(h, r, cur, s);
            ShowsVerdict(Reorg, h, b, cur, s) || ShowsVerdict(Repair, h, b, cur, s) || ShowsVerdict(Stamp, h, b, cur, s)))
  }

  lemma EnrichmentShows(h: int, r: Row, cur: string, s: Inputs)
    ensures var b := FirstPass(h, r, cur, s);
            && b == r.(hash := b.hash, reward := b.reward, miner := b.miner)
            && ((b.hash != r.hash || b.reward != r.reward || b.miner != r.miner) <==>
                 !s.missingFails && NeedsEnrichment(r, s.since) && EnrichWrites(h, r, cur, s))
  {
  }

  /** The later passes never undo each other: some verdict shows exactly if their joint effect does. */
  lemma VerdictsShow(h: int, b: Row, cur: string, s: Inputs)
    requires cur != ""
    ensures var r' := LaterPasses(h, b, cur, s);
            && r' == b.(orphanedAt := r'.orphanedAt, chain := r'.chain)
            && (ToRecord(Stored(h, r')) != ToRecord(Stored(h, b)) <==>
                 ShowsVerdict(Reorg, h, b, cur, s) || ShowsVerdict(Repair, h, b, cur, s) || ShowsVerdict(Stamp, h, b, cur, s))
  {
  }

  lemma RowShowsIff(h: int, r: Row, recent: bool, cur: string, s: Inputs)
    requires cur != ""
    ensures ToRecord(Stored(h, SweptRow(h, r, recent, cur, s))) != ToRecord(Stored(h, r)) <==> ShowsChange(h, r, recent, cur, s)
  {
    var b := FirstPass(h, r, cur, s);
    EnrichmentShows(h, r, cur, s);
    VerdictsShow(h, b, cur, s);
    hide FirstPass, LaterPasses, ShowsVerdict, EnrichWrites, NeedsEnrichment;
  }

  lemma ViewChangesIff(t: Table, cur: string, s: Inputs)
    requires cur != ""
    ensures StoreView(SweptTable(t, cur, s)) != StoreView(t) <==>
              exists h :: h in Newest(t.Keys, MAX_BLOCK_HISTORY) && ShowsChange(h, t[h], IsRecent(t, h), cur, s)
  {
    hide ShowsChange, SweptTable, StoreView, Newest;
    var t', hs := SweptTable(t, cur, s), Newest(t.Keys, MAX_BLOCK_HISTORY);
    var changed := set h | h in hs && ShowsChange(h, t[h], IsRecent(t, h), cur, s);
    ViewLengths(t, cur, s);
    forall i | 0 <= i < |hs|
      ensures StoreView(t)[|hs| - 1 - i] != StoreView(t')[|hs| - 1 - i] <==> hs[i] in changed
    {
      EntryChangesIff(t, cur, s, i);
    }
    DifferIff(StoreView(t), StoreView(t'), hs, changed);
  }

  lemma ViewLengths(t: Table, cur: string, s: Inputs)
    ensures |StoreView(t)| == |StoreView(SweptTable(t, cur, s))| == |Newest(t.Keys, MAX_BLOCK_HISTORY)|
  {
    hide Newest, SweptRow;
    assert SweptTable(t, cur, s).Keys == t.Keys;
  }

  lemma EntryChangesIff(t: Table, cur: string, s: Inputs, i: nat)
    requires cur != "" && i < |Newest(t.Keys, MAX_BLOCK_HISTORY)|
    ensures var v, v', h := StoreView(t), StoreView(SweptTable(t, cur, s)), Newest(t.Keys, MAX_BLOCK_HISTORY)[i];
            && |v| == |v'| == |Newest(t.Keys, MAX_BLOCK_HISTORY)|
            && (v[|v| - 1 - i] != v'[|v| - 1 - i] <==> ShowsChange(h, t[h], IsRecent(t, h), cur, s))
  {
    hide ShowsChange, SweptRow, ToRecord, Newest;
    var t', h := SweptTable(t, cur, s), Newest(t.Keys, MAX_BLOCK_HISTORY)[i];
    assert t'.Keys == t.Keys;
    var v, v' := StoreView(t), StoreView(t');
    assert v[|v| - 1 - i] == RecordAt(t, h) && v'[|v| - 1 - i] == RecordAt(t', h);
    RowShowsIff(h, t[h], IsRecent(t, h), cur, s);
  }

  /** Two equally long sequences, compared from the back, differ exactly if they do at some listed height. */
  lemma DifferIff(v: seq<Record>, v': seq<Record>, hs: seq<int>, changed: set<int>)
    requires |v| == |v'| == |hs|
    requires forall i :: 0 <= i < |hs| ==> (v[|hs| - 1 - i] != v'[|hs| - 1 - i] <==> hs[i] in changed)
    ensures v' != v <==> exists h :: h in hs && h in changed
  {
    if v != v' {
      var j :| 0 <= j < |hs| && v[j] != v'[j];
      var i := |hs| - 1 - j;
      assert v[|hs| - 1 - i] != v'[|hs| - 1 - i];
      var h := hs[i];
      assert h in hs && h in changed;
    }
    if h :| h in hs && h in changed {
      var i :| 0 <= i < |hs| && hs[i] == h;
      assert v[|hs| - 1 - i] != v'[|hs| - 1 - i];
      assert v != v';
    }
  }

  /**
   * When the store can be read, a sweep keeps the history right. When the second read or the reload
   * fails, it does exactly if no row among the newest 256 changes in what the history shows.
   */
  lemma SweepStaysCoherentIff(st: State, s: Inputs)
    requires Coherent(st)
    ensures var t := st.table;
            Coherent(Next(st, Sweep(s))) <==>
              || st.chain == ""
              || (!s.recentFails && !s.reloadFails)
              || forall h :: h in Newest(t.Keys, MAX_BLOCK_HISTORY) ==> !ShowsChange(h, t[h], IsRecent(t, h), st.chain, s)
  {
    var t, t' := st.table, SweptTable(st.table, st.chain, s);
    ReloadIsCoherent(t');
    if st.chain != "" {
      ViewChangesIff(t, st.chain, s);
      if !s.recentFails && !s.reloadFails && !Reloads(t, st.chain, s) {
        QuietSweepChangesNothing(t, st.chain, s);
      }
      SameViewCoherent(st.ring, StoreView(t), StoreView(t'));
    }
    assert Reloads(t, st.chain, s) ==> st.chain != "" && !s.recentFails && !s.reloadFails;
    hide ShowsChange, StoreView, Shows, Reloads;
  }

  lemma SameViewCoherent(ring: seq<Record>, v: seq<Record>, v': seq<Record>)
    requires Shows(ring, v)
    ensures Shows(ring, v') <==> v == v'
  {
  }

  /** What the history needs of a step: a stored top height, or a sweep that reads the store or shows no change. */
  ghost predicate Orderly(st: State, e: Step) {
    match e
    case Solve(height, _, _, _, _, _, insertFails) =>
      !insertFails && (height in st.table || forall k :: k in st.table ==> k < height)
    case Sweep(s) =>
      var t := st.table;
      || st.chain == ""
      || (!s.recentFails && !s.reloadFails)
      || forall h :: h in Newest(t.Keys, MAX_BLOCK_HISTORY) ==> !ShowsChange(h, t[h], IsRecent(t, h), st.chain, s)
    case Poll(_) => true
  }

  lemma StepStaysCoherentIff(st: State, e: Step)
    requires Coherent(st)
    ensures Coherent(Next(st, e)) <==> Orderly(st, e)
  {
    match e
    case Solve(height, _, _, _, _, _, insertFails) =>
      if insertFails || height !in st.table {
        AppendStaysCoherentIff(st, e);
      }
    case Sweep(s) => SweepStaysCoherentIff(st, s);
    case Poll(_) =>
  }

  /** After the run and after each of its prefixes. */
  ghost predicate AlwaysCoherent(st: State, steps: seq<Step>) {
    Coherent(Run(st, steps)) && (steps != [] ==> AlwaysCoherent(st, steps[..|steps| - 1]))
  }

  /** Every step is orderly in the state it meets. */
  ghost predicate AlwaysOrderly(st: State, steps: seq<Step>) {
    steps == [] ||
    (var n := |steps| - 1;
     Orderly(Run(st, steps[..n]), steps[n]) && AlwaysOrderly(st, steps[..n]))
  }

  /** At every point of a run the history is the newest 256 rows, newest last, if and only if every step is orderly. */
  lemma {:induction false} HistoryFollowsStoreIff(st: State, steps: seq<Step>)
    requires Coherent(st)
    ensures AlwaysCoherent(st, steps) <==> AlwaysOrderly(st, steps)
  {
    if steps != [] {
      var n := |steps| - 1;
      HistoryFollowsStoreIff(st, steps[..n]);
      if Coherent(Run(st, steps[..n])) {
        StepStaysCoherentIff(Run(st, steps[..n]), steps[n]);
      }
      hide Coherent, Orderly;
    }
  }

  // ---- convergence under a reliable node

  lemma SweepKeepsHeights(t: Table, cur: string, s: Inputs)
    ensures SweptTable(t, cur, s).Keys == t.Keys
  {
  }

  /** Whatever the table held, two faithful sweeps settle every recent row and a third changes nothing. */
  lemma TwoSweepsConverge(t: Table, cur: string, n: Node, s1: Inputs, s2: Inputs, s3: Inputs)
    requires cur != "" && Reliable(n) && Faithful(s1, n) && Faithful(s2, n) && Faithful(s3, n)
    requires NoEarlier(s1, s2) && NoEarlier(s2, s3)
    ensures var t2 := SweptTable(SweptTable(t, cur, s1), cur, s2);
            && SweptTable(t2, cur, s3) == t2
            && t2.Keys == t.Keys
            && forall h :: h in t2 && |Above(t.Keys, h)| < WINDOW && t2[h].hash != "" && InWindow(t2[h], s2) ==>
                 Settled(h, t2[h], cur, n)
  {
    var t1 := SweptTable(t, cur, s1);
    var t2 := SweptTable(t1, cur, s2);
    SweepKeepsHeights(t, cur, s1);
    SweepKeepsHeights(t1, cur, s2);
    forall h | h in t
      ensures SweptRow(h, t2[h], IsRecent(t2, h), cur, s3) == t2[h]
    {
      TwoSweepsReachFixpoint(h, t[h], IsRecent(t, h), cur, n, s1, s2, s3);
    }
    forall h | h in t2 && |Above(t.Keys, h)| < WINDOW && t2[h].hash != "" && InWindow(t2[h], s2)
      ensures Settled(h, t2[h], cur, n)
    {
      NewestIffFewAbove(t.Keys, WINDOW, h);
      TwoSweepsDecide(h, t[h], cur, n, s1, s2);
    }
  }

  /** Solves added rows and changed none. */
  ghost predicate Extends(t: Table, t': Table) {
    t.Keys <= t'.Keys && forall h :: h in t ==> t'[h] == t[h]
  }

  lemma StepExtends(st: State, e: Step)
    requires e.Solve?
    ensures Extends(st.table, Next(st, e).table)
  {
  }

  /** More rows can only push a row out of the newest ones. */
  lemma RecentShrinks(t: Table, t': Table, h: int)
    requires t.Keys <= t'.Keys && h in t && IsRecent(t', h)
    ensures IsRecent(t, h)
  {
    NewestIffFewAbove(t.Keys, WINDOW, h);
    NewestIffFewAbove(t'.Keys, WINDOW, h);
    assert Above(t.Keys, h) <= Above(t'.Keys, h);
    SmallerSubset(Above(t.Keys, h), Above(t'.Keys, h));
  }

  lemma SmallerSubset(a: set<int>, b: set<int>)
    requires a <= b
    ensures |a| <= |b|
  {
    assert b == a + (b - a);
  }

  /**
   * Convergence is the same when blocks are found between the sweeps: on every row the first sweep met,
   * a third faithful sweep changes nothing, and those recent at the second are settled by it.
   */
  lemma TwoSweepsConvergeAmongSolves(t: Table, t1: Table, t2: Table, cur: string, n: Node, s1: Inputs, s2: Inputs, s3: Inputs)
    requires cur != "" && Reliable(n) && Faithful(s1, n) && Faithful(s2, n) && Faithful(s3, n)
    requires NoEarlier(s1, s2) && NoEarlier(s2, s3)
    requires Extends(SweptTable(t, cur, s1), t1) && Extends(SweptTable(t1, cur, s2), t2)
    ensures forall h :: h in t ==>
              && h in t1 && h in t2 && SweptTable(t2, cur, s3)[h] == t2[h]
              && (|Above(t1.Keys, h)| < WINDOW && t2[h].hash != "" && InWindow(t2[h], s2) ==> Settled(h, t2[h], cur, n))
  {
    SweepKeepsHeights(t, cur, s1);
    SweepKeepsHeights(t1, cur, s2);
    hide IsRecent, SweptRow, Settled, InWindow;
    forall h | h in t
      ensures h in t1 && h in t2 && SweptTable(t2, cur, s3)[h] == t2[h]
      ensures |Above(t1.Keys, h)| < WINDOW && t2[h].hash != "" && InWindow(t2[h], s2) ==> Settled(h, t2[h], cur, n)
    {
      assert t1[h] == SweptRow(h, t[h], IsRecent(t, h), cur, s1);
      assert t2[h] == SweptRow(h, t1[h], IsRecent(t1, h), cur, s2);
      if IsRecent(t1, h) { RecentShrinks(t, t1, h); }
      if IsRecent(t2, h) { RecentShrinks(t1, t2, h); }
      FixpointThoughLeavingRecent(h, t[h], IsRecent(t, h), IsRecent(t1, h), IsRecent(t2, h), cur, n, s1, s2, s3);
      RecentMeans(t1, h);
      if IsRecent(t1, h) {
        TwoSweepsDecide(h, t[h], cur, n, s1, s2);
      }
    }
  }

  lemma RecentMeans(t: Table, h: int)
    requires h in t
    ensures IsRecent(t, h) <==> |Above(t.Keys, h)| < 64
  {
    NewestIffFewAbove(t.Keys, WINDOW, h);
  }

  ghost predicate FaithfulSweeps(steps: seq<Step>, n: Node, like: Inputs) {
    forall i :: 0 <= i < |steps| ==>
      steps[i].Sweep? && Faithful(steps[i].inputs, n) && NoEarlier(like, steps[i].inputs)
  }

  /** However many faithful sweeps follow, the table stays where the second one left it. */
  lemma {:induction false} SweepsStayConverged(st: State, n: Node, s1: Inputs, s2: Inputs, later: seq<Step>)
    requires st.chain != "" && Reliable(n) && Faithful(s1, n) && Faithful(s2, n) && NoEarlier(s1, s2)
    requires FaithfulSweeps(later, n, s2)
    ensures var two := Next(Next(st, Sweep(s1)), Sweep(s2));
            Run(two, later).table == two.table && Run(two, later).chain == st.chain
  {
    if later != [] {
      var k := |later| - 1;
      SweepsStayConverged(st, n, s1, s2, later[..k]);
      TwoSweepsConverge(st.table, st.chain, n, s1, s2, later[k].inputs);
    }
  }

  /** A failed second read after an enrichment leaves the history stale. */
  lemma FailedReadLeavesHistoryStale(s: Inputs)
    requires s.recentFails && !s.missingFails && !s.writeFails(Enrich, 7) && s.since == 0
    requires s.hashAt(Enrich, 7) == Some("a") && s.blockOf(Enrich, 7, "a") == None
    ensures var t: Table := map[7 := Row("", 0, 1, "logmon", 0.0, 0, "main", "")];
            var st := State(t, StoreView(t), "main", 1);
            Coherent(st) && !Coherent(Next(st, Sweep(s)))
  {
    var t: Table := map[7 := Row("", 0, 1, "logmon", 0.0, 0, "main", "")];
    var t' := SweptTable(t, "main", s);
    ReloadIsCoherent(t);
    assert t.Keys == t'.Keys == {7};
    GreatestFirst({7}, MAX_BLOCK_HISTORY);
    assert StoreView(t)[0] == RecordAt(t, 7) && StoreView(t')[0] == RecordAt(t', 7);
  }
}
