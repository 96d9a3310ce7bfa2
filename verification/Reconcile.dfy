/**
 * The aggregator's block bookkeeping: the stored table, the in-memory history shown to clients,
 * block ingest, and the periodic four-pass reconciliation sweep.
 */
module Reconcile {
  import opened Common
  import opened BlockStore
  import opened SweepPolicy

  // ---- in-memory history

  const MAX_BLOCK_HISTORY := 256

  /** A history entry. `foundNanos` keeps the event's clock reading; the store keeps whole seconds. */
  datatype Record = Record(height: int, hash: string, reward: int, foundNanos: int, source: string, shareDiff: real,
                           orphanedAt: Option<int>, chain: string, miner: string)

  function ToRecord(b: Stored): Record {
    Record(b.height, b.row.hash, b.row.reward, b.row.foundAt * NANOS, b.row.source, b.row.shareDiff,
           if b.row.Orphaned() then Some(b.row.orphanedAt) else None, b.row.chain, b.row.miner)
  }

  function ToRow(r: Record): Row {
    Row(r.hash, r.reward, r.foundNanos / NANOS, r.source, r.shareDiff, 0, r.chain, r.miner)
  }

  /** The history a reload produces: the newest 256 rows, newest last. */
  ghost function StoreView(t: Table): (v: seq<Record>)
    ensures |v| == |Newest(t.Keys, MAX_BLOCK_HISTORY)|
  {
    OldestFirst(t, Newest(t.Keys, MAX_BLOCK_HISTORY))
  }

  ghost function OldestFirst(t: Table, hs: seq<int>): (v: seq<Record>)
    requires forall i :: 0 <= i < |hs| ==> hs[i] in t
    ensures |v| == |hs| && forall i :: 0 <= i < |v| ==> v[i] == RecordAt(t, hs[|v| - 1 - i])
  {
    seq(|hs|, i requires 0 <= i < |hs| => RecordAt(t, hs[|hs| - 1 - i]))
  }

  ghost function RecordAt(t: Table, h: int): Record
    requires h in t
  {
    ToRecord(Stored(h, t[h]))
  }

  function Append(blocks: seq<Record>, rec: Record): seq<Record> {
    var all := blocks + [rec];
    if |all| > MAX_BLOCK_HISTORY then all[|all| - MAX_BLOCK_HISTORY..] else all
  }

  lemma ViewOfCopies(t: Table, rows: seq<Stored>)
    requires Copies(t, Newest(t.Keys, MAX_BLOCK_HISTORY), rows)
    ensures var v := StoreView(t);
            |v| == |rows| && forall i :: 0 <= i < |rows| ==> v[|rows| - 1 - i] == ToRecord(rows[i])
  {
    var hs, v := Newest(t.Keys, MAX_BLOCK_HISTORY), StoreView(t);
    forall i | 0 <= i < |rows|
      ensures v[|rows| - 1 - i] == ToRecord(rows[i])
    {
      assert v[|rows| - 1 - i] == RecordAt(t, hs[i]);
    }
  }

  // ---- what a sweep does to the whole table

  ghost predicate IsRecent(t: Table, h: int) {
    h in Newest(t.Keys, WINDOW)
  }

  ghost function SweptTable(t: Table, cur: string, s: Inputs): Table {
    if cur == "" then t else map h | h in t :: SweptRow(h, t[h], IsRecent(t, h), cur, s)
  }

  ghost function FirstPassTable(t: Table, cur: string, s: Inputs): Table {
    map h | h in t :: FirstPass(h, t[h], cur, s)
  }

  ghost predicate EnrichedAny(t: Table, cur: string, s: Inputs) {
    !s.missingFails && exists h :: h in Incomplete(t, s.since) && EnrichWrites(h, t[h], cur, s)
  }

  ghost predicate PassWrote(p: Pass, base: Table, hs: seq<int>, cur: string, s: Inputs)
    requires forall h :: h in hs ==> h in base
  {
    exists h :: h in hs && Writes(p, h, base[h], cur, s)
  }

  /** The sweep got past its second read and some pass issued a successful write. */
  ghost predicate Reloads(t: Table, cur: string, s: Inputs) {
    && cur != "" && !s.recentFails && !s.reloadFails
    && (var b, hs := FirstPassTable(t, cur, s), Newest(t.Keys, WINDOW);
        EnrichedAny(t, cur, s) || PassWrote(Reorg, b, hs, cur, s) || PassWrote(Repair, b, hs, cur, s)
        || PassWrote(Stamp, b, hs, cur, s))
  }

  // ---- the bookkeeping as a state machine

  datatype State = State(table: Table, ring: seq<Record>, chain: string, confirmed: int)

  datatype Step =
    | Solve(height: int, seenNanos: int, shareDiff: real, workers: seq<Worker>,
            hashNow: Option<string>, blockNow: string -> Option<Block>, insertFails: bool)
    | Sweep(inputs: Inputs)
    | Poll(network: string)  // a refresh reports the node's current chain, "" when it is unreachable

  /** The record built for a solve event, enriched best-effort. */
  function Found(e: Step, chain: string): Record
    requires e.Solve?
  {
    var blk := if e.hashNow.Some? then e.blockNow(e.hashNow.value) else None;
    Record(e.height, if e.hashNow.Some? then e.hashNow.value else "",
           if blk.Some? then blk.value.reward else 0, e.seenNanos, "logmon", e.shareDiff, None, chain,
           if blk.Some? then MinerFromCoinbase(blk.value.address, e.workers) else "")
  }

  ghost function Next(st: State, e: Step): State {
    match e
    case Solve(height, _, _, _, _, _, insertFails) =>
      if !insertFails && height in st.table then st else
        var rec := Found(e, st.chain);
        st.(table := if insertFails then st.table else st.table[height := ToRow(rec)],
            ring := Append(st.ring, rec), confirmed := st.confirmed + 1)
    case Sweep(s) =>
      var t := SweptTable(st.table, st.chain, s);
      st.(table := t, ring := if Reloads(st.table, st.chain, s) then StoreView(t) else st.ring)
    case Poll(network) => st.(chain := network)
  }

  /** From `t` to `t'`, pass `p` treated every height of `hs`, judging the copies in `base`. */
  ghost predicate Passed(p: Pass, t: Table, t': Table, base: Table, hs: seq<int>, cur: string, s: Inputs)
    requires forall h :: h in hs ==> h in base
  {
    && t'.Keys == t.Keys
    && forall h :: h in t ==> t'[h] == if h in hs then PassStep(p, h, base[h], t[h], cur, s) else t[h]
  }

  /** From `t` to `t'`, pass 1 treated every height of `hs`. */
  ghost predicate PassedFirst(t: Table, t': Table, hs: seq<int>, cur: string, s: Inputs) {
    && t'.Keys == t.Keys
    && forall h :: h in t ==> t'[h] == if h in hs then EnrichStep(h, t[h], cur, s) else t[h]
  }

  ghost predicate FirstPassWrote(t: Table, hs: seq<int>, cur: string, s: Inputs)
    requires forall h :: h in hs ==> h in t
  {
    exists h :: h in hs && EnrichWrites(h, t[h], cur, s)
  }

  lemma PassAdvances(p: Pass, t: Table, t1: Table, base: Table, hs: seq<int>, i: nat, cur: string, s: Inputs)
    requires i < |hs| && forall k :: 0 <= k < |hs| ==> hs[k] in base && hs[k] in t
    requires forall j, k :: 0 <= j < k < |hs| ==> hs[j] != hs[k]
    requires Passed(p, t, t1, base, hs[..i], cur, s)
    ensures var h := hs[i];
            && h in t1 && t1[h] == t[h]
            && Passed(p, t, t1[h := PassStep(p, h, base[h], t1[h], cur, s)], base, hs[..i + 1], cur, s)
            && (PassWrote(p, base, hs[..i + 1], cur, s) <==> PassWrote(p, base, hs[..i], cur, s) || Writes(p, h, base[h], cur, s))
  {
    hide PassStep, Writes;
    assert hs[..i + 1] == hs[..i] + [hs[i]];
    assert forall h :: h in hs[..i + 1] <==> h in hs[..i] || h == hs[i];
  }

  lemma FirstPassAdvances(t: Table, t1: Table, hs: seq<int>, i: nat, cur: string, s: Inputs)
    requires i < |hs| && forall k :: 0 <= k < |hs| ==> hs[k] in t
    requires forall j, k :: 0 <= j < k < |hs| ==> hs[j] != hs[k]
    requires PassedFirst(t, t1, hs[..i], cur, s)
    ensures var h := hs[i];
            && h in t1 && t1[h] == t[h]
            && PassedFirst(t, t1[h := EnrichStep(h, t1[h], cur, s)], hs[..i + 1], cur, s)
            && (FirstPassWrote(t, hs[..i + 1], cur, s) <==> FirstPassWrote(t, hs[..i], cur, s) || EnrichWrites(h, t[h], cur, s))
  {
    hide EnrichStep, EnrichWrites;
    assert hs[..i + 1] == hs[..i] + [hs[i]];
    assert forall h :: h in hs[..i + 1] <==> h in hs[..i] || h == hs[i];
  }

  lemma NothingPassed(p: Pass, t: Table, base: Table, cur: string, s: Inputs)
    ensures Passed(p, t, t, base, [], cur, s) && !PassWrote(p, base, [], cur, s)
    ensures PassedFirst(t, t, [], cur, s) && !FirstPassWrote(t, [], cur, s)
  {
  }

  /** Treating exactly the rows that need enrichment is the first pass over the table. */
  lemma FirstPassComplete(t: Table, t1: Table, hs: seq<int>, cur: string, s: Inputs)
    requires !s.missingFails && (forall h :: h in hs <==> h in Incomplete(t, s.since)) && PassedFirst(t, t1, hs, cur, s)
    ensures t1 == FirstPassTable(t, cur, s) && (FirstPassWrote(t, hs, cur, s) <==> EnrichedAny(t, cur, s))
  {
    hide EnrichStep, EnrichWrites;
    assert t1.Keys == FirstPassTable(t, cur, s).Keys;
  }

  lemma NothingEnriched(t: Table, cur: string, s: Inputs)
    requires s.missingFails
    ensures t == FirstPassTable(t, cur, s) && !EnrichedAny(t, cur, s)
  {
  }

  /** Four passes over distinct heights amount to one decision per row. */
  lemma PassesCompose(t: Table, t1: Table, t2: Table, t3: Table, cur: string, s: Inputs)
    requires cur != "" && !s.recentFails
    requires var b, hs := FirstPassTable(t, cur, s), Newest(t.Keys, WINDOW);
             Passed(Reorg, b, t1, b, hs, cur, s) && Passed(Repair, t1, t2, b, hs, cur, s) && Passed(Stamp, t2, t3, b, hs, cur, s)
    ensures t3 == SweptTable(t, cur, s)
  {
    var b, swept := FirstPassTable(t, cur, s), SweptTable(t, cur, s);
    assert t3.Keys == b.Keys == t.Keys == swept.Keys;
    forall h | h in t
      ensures t3[h] == swept[h]
    {
      if IsRecent(t, h) {
        assert t1[h] == PassStep(Reorg, h, b[h], b[h], cur, s);
      }
    }
  }

  lemma NoChainNoSweep(t: Table, s: Inputs)
    ensures SweptTable(t, "", s) == t
  {
  }

  lemma FirstPassKeys(t: Table, cur: string, s: Inputs)
    ensures FirstPassTable(t, cur, s).Keys == t.Keys
  {
  }

  /** A failed second read ends the sweep after its first pass. */
  lemma FirstPassOnly(t: Table, cur: string, s: Inputs)
    requires cur != "" && s.recentFails
    ensures FirstPassTable(t, cur, s) == SweptTable(t, cur, s)
  {
    hide FirstPass, LaterPasses;
  }

  class Aggregator {
    const store: Blocks
    var chain: string  // the snapshot's current chain, "" before the first successful poll
    var blocks: seq<Record>
    var confirmed: int

    constructor (store: Blocks)
      ensures this.store == store && chain == "" && blocks == [] && confirmed == 0
    {
      this.store := store;
      chain, blocks, confirmed := "", [], 0;
    }

    ghost function Value(): State
      reads this, store
    {
      State(store.rows, blocks, chain, confirmed)
    }

    method LoadPersistedBlocks(failed: bool)
      modifies this`blocks
      ensures blocks == if failed then old(blocks) else StoreView(store.rows)
    {
      hide StoreView, Newest, ToRecord, Copies;
      var r := store.Recent(MAX_BLOCK_HISTORY, failed);
      if r.Err? {
        return;
      }
      var rows := r.value;
      ViewOfCopies(store.rows, rows);
      var recs: seq<Record> := [];
      var i := |rows|;
      while i > 0
        invariant 0 <= i <= |rows| == |StoreView(store.rows)|
        invariant recs == StoreView(store.rows)[..|rows| - i]
      {
        i := i - 1;
        assert StoreView(store.rows)[|rows| - 1 - i] == ToRecord(rows[i]);
        recs := recs + [ToRecord(rows[i])];
      }
      blocks := recs;
    }

    method AppendBlock(rec: Record)
      modifies this`blocks
      ensures blocks == Append(old(blocks), rec)
    {
      blocks := blocks + [rec];
      if |blocks| > MAX_BLOCK_HISTORY {
        blocks := blocks[|blocks| - MAX_BLOCK_HISTORY..];
      }
    }

    /** Pass 1. */
    method EnrichPass(s: Inputs) returns (enrichedAny: bool)
      requires chain != ""
      modifies store
      ensures store.rows == FirstPassTable(old(store.rows), chain, s)
      ensures enrichedAny <==> EnrichedAny(old(store.rows), chain, s)
    {
      hide FirstPassTable, EnrichedAny, PassedFirst, FirstPassWrote, EnrichStep, EnrichWrites;
      ghost var t := store.rows;
      var r := store.BlocksNeedingEnrichment(s.since, s.missingFails);
      enrichedAny := false;
      if r.Err? {
        NothingEnriched(t, chain, s);
        return;
      }
      var missing := r.value;
      ghost var hs :| Copies(t, hs, missing) && (forall h :: h in hs <==> h in Incomplete(t, s.since))
                      && (forall i, j :: 0 <= i < j < |hs| ==> hs[i] < hs[j]);
      NothingPassed(Enrich, t, t, chain, s);
      for i := 0 to |missing|
        invariant PassedFirst(t, store.rows, hs[..i], chain, s)
        invariant enrichedAny <==> FirstPassWrote(t, hs[..i], chain, s)
      {
        FirstPassAdvances(t, store.rows, hs, i, chain, s);
        var wrote := EnrichOne(missing[i], s);
        enrichedAny := enrichedAny || wrote;
      }
      assert hs[..|missing|] == hs;
      FirstPassComplete(t, store.rows, hs, chain, s);
    }

    method EnrichOne(b: Stored, s: Inputs) returns (wrote: bool)
      requires b.height in store.rows && store.rows[b.height] == b.row
      modifies store
      ensures wrote == EnrichWrites(b.height, b.row, chain, s)
      ensures store.rows == old(store.rows)[b.height := EnrichStep(b.height, b.row, chain, s)]
    {
      wrote := false;
      if b.row.chain != "" && b.row.chain != chain {
        return;
      }
      var hash, reward, miner := b.row.hash, b.row.reward, b.row.miner;
      if hash == "" {
        var h := s.hashAt(Enrich, b.height);
        if h.None? {
          return;
        }
        hash := h.value;
      }
      if (reward == 0 || miner == "") && hash != "" {
        var blk := s.blockOf(Enrich, b.height, hash);
        if blk.Some? {
          if reward == 0 {
            reward := blk.value.reward;
          }
          if miner == "" {
            miner := MinerFromCoinbase(blk.value.address, s.workers);
          }
        }
      }
      if hash != b.row.hash || reward != b.row.reward || miner != b.row.miner {
        wrote := store.UpdateEnrichment(b.height, hash, reward, miner, s.writeFails(Enrich, b.height));
      }
    }

    /** Pass 2: mark genuine reorgs, stamp blocks of another network. */
    method ReorgPass(recent: seq<Stored>, s: Inputs, ghost base: Table, ghost hs: seq<int>) returns (wroteAny: bool)
      requires Copies(base, hs, recent) && forall i, j :: 0 <= i < j < |hs| ==> hs[i] != hs[j]
      requires forall h :: h in hs ==> h in store.rows
      modifies store
      ensures Passed(Reorg, old(store.rows), store.rows, base, hs, chain, s)
      ensures wroteAny <==> PassWrote(Reorg, base, hs, chain, s)
    {
      hide Passed, PassWrote, PassStep, Writes;
      ghost var t := store.rows;
      wroteAny := false;
      NothingPassed(Reorg, t, base, chain, s);
      for i := 0 to |recent|
        invariant Passed(Reorg, t, store.rows, base, hs[..i], chain, s)
        invariant wroteAny <==> PassWrote(Reorg, base, hs[..i], chain, s)
      {
        PassAdvances(Reorg, t, store.rows, base, hs, i, chain, s);
        var wrote := ReorgOne(recent[i], s);
        wroteAny := wroteAny || wrote;
      }
      assert hs[..|recent|] == hs;
    }

    method ReorgOne(b: Stored, s: Inputs) returns (wrote: bool)
      requires b.height in store.rows
      modifies store
      ensures wrote == Writes(Reorg, b.height, b.row, chain, s)
      ensures store.rows == old(store.rows)[b.height := PassStep(Reorg, b.height, b.row, old(store.rows)[b.height], chain, s)]
    {
      wrote := false;
      if b.row.hash == "" || b.row.Orphaned() {
        return;
      }
      if b.row.foundAt * NANOS < s.since {
        return;
      }
      if b.row.chain != "" && b.row.chain != chain {
        return;
      }
      var canonical := s.hashAt(Reorg, b.height);
      if canonical.None? || canonical.value == b.row.hash {
        return;
      }
      if s.blockOf(Reorg, b.height, b.row.hash).None? {
        var other := b.row.chain;
        if other == "" {
          other := InferOtherChain(chain);
        }
        wrote := store.StampChain(b.height, other, s.writeFails(Reorg, b.height));
        return;
      }
      wrote := store.MarkOrphaned(b.height, s.now, s.writeFails(Reorg, b.height));
    }

    /** Pass 3: clear orphan marks that were false or have been reverted. */
    method RepairPass(recent: seq<Stored>, s: Inputs, ghost base: Table, ghost hs: seq<int>) returns (wroteAny: bool)
      requires Copies(base, hs, recent) && forall i, j :: 0 <= i < j < |hs| ==> hs[i] != hs[j]
      requires forall h :: h in hs ==> h in store.rows
      modifies store
      ensures Passed(Repair, old(store.rows), store.rows, base, hs, chain, s)
      ensures wroteAny <==> PassWrote(Repair, base, hs, chain, s)
    {
      hide Passed, PassWrote, PassStep, Writes;
      ghost var t := store.rows;
      wroteAny := false;
      NothingPassed(Repair, t, base, chain, s);
      for i := 0 to |recent|
        invariant Passed(Repair, t, store.rows, base, hs[..i], chain, s)
        invariant wroteAny <==> PassWrote(Repair, base, hs[..i], chain, s)
      {
        PassAdvances(Repair, t, store.rows, base, hs, i, chain, s);
        var wrote := RepairOne(recent[i], s);
        wroteAny := wroteAny || wrote;
      }
      assert hs[..|recent|] == hs;
    }

    method RepairOne(b: Stored, s: Inputs) returns (wrote: bool)
      requires b.height in store.rows
      modifies store
      ensures wrote == Writes(Repair, b.height, b.row, chain, s)
      ensures store.rows == old(store.rows)[b.height := PassStep(Repair, b.height, b.row, old(store.rows)[b.height], chain, s)]
    {
      wrote := false;
      var failed := s.writeFails(Repair, b.height);
      if !b.row.Orphaned() || b.row.hash == "" {
        return;
      }
      if b.row.foundAt * NANOS < s.since {
        return;
      }
      if b.row.chain != "" && b.row.chain != chain {
        wrote := store.UnmarkOrphaned(b.height, failed);
        return;
      }
      if s.blockOf(Repair, b.height, b.row.hash).None? {
        var other := b.row.chain;
        if other == "" || other == chain {
          other := InferOtherChain(chain);
        }
        wrote := store.UnmarkOrphanedStampChain(b.height, other, failed);
        return;
      }
      var canonical := s.hashAt(Repair, b.height);
      if canonical.None? {
        return;
      }
      if canonical.value == b.row.hash {
        wrote := store.UnmarkOrphaned(b.height, failed);
      }
    }

    /** Pass 4: settle missing and obsolete chain stamps, whatever the row's age. */
    method StampPass(recent: seq<Stored>, s: Inputs, ghost base: Table, ghost hs: seq<int>) returns (wroteAny: bool)
      requires Copies(base, hs, recent) && forall i, j :: 0 <= i < j < |hs| ==> hs[i] != hs[j]
      requires forall h :: h in hs ==> h in store.rows
      modifies store
      ensures Passed(Stamp, old(store.rows), store.rows, base, hs, chain, s)
      ensures wroteAny <==> PassWrote(Stamp, base, hs, chain, s)
    {
      hide Passed, PassWrote, PassStep, Writes;
      ghost var t := store.rows;
      wroteAny := false;
      NothingPassed(Stamp, t, base, chain, s);
      for i := 0 to |recent|
        invariant Passed(Stamp, t, store.rows, base, hs[..i], chain, s)
        invariant wroteAny <==> PassWrote(Stamp, base, hs[..i], chain, s)
      {
        PassAdvances(Stamp, t, store.rows, base, hs, i, chain, s);
        var wrote := StampOne(recent[i], s);
        wroteAny := wroteAny || wrote;
      }
      assert hs[..|recent|] == hs;
    }

    method StampOne(b: Stored, s: Inputs) returns (wrote: bool)
      requires b.height in store.rows
      modifies store
      ensures wrote == Writes(Stamp, b.height, b.row, chain, s)
      ensures store.rows == old(store.rows)[b.height := PassStep(Stamp, b.height, b.row, old(store.rows)[b.height], chain, s)]
    {
      wrote := false;
      if (b.row.chain != "" && b.row.chain != "other" && b.row.chain != "test") || b.row.hash == "" {
        return;
      }
      var to := if s.blockOf(Stamp, b.height, b.row.hash).None? then InferOtherChain(chain) else chain;
      wrote := store.StampChain(b.height, to, s.writeFails(Stamp, b.height));
    }

    method ReconcileOnce(s: Inputs)
      modifies this`blocks, store
      ensures Value() == Next(old(Value()), Sweep(s))
    {
      hide SweptTable, FirstPassTable, Newest, StoreView, EnrichedAny, PassWrote;
      if chain == "" {
        assert SweptTable(store.rows, chain, s) == store.rows by {
          NoChainNoSweep(store.rows, s);
        }
        return;
      }
      ghost var t := store.rows;
      var enrichedAny := EnrichPass(s);
      ghost var base, hs := store.rows, Newest(t.Keys, WINDOW);
      FirstPassKeys(t, chain, s);
      var r := store.Recent(WINDOW, s.recentFails);
      if r.Err? {
        FirstPassOnly(t, chain, s);
        return;
      }
      var reorged := ReorgPass(r.value, s, base, hs);
      ghost var t1 := store.rows;
      var repaired := RepairPass(r.value, s, base, hs);
      ghost var t2 := store.rows;
      var stamped := StampPass(r.value, s, base, hs);
      PassesCompose(t, t1, t2, store.rows, chain, s);
      if enrichedAny || reorged || repaired || stamped {
        LoadPersistedBlocks(s.reloadFails);
      }
    }

    /** A confirmed solve: counted and shown unless its height is already stored. */
    method IngestBlock(e: Step)
      requires e.Solve?
      modifies this`blocks, this`confirmed, store
      ensures Value() == Next(old(Value()), e)
    {
      var rec := Record(e.height, "", 0, e.seenNanos, "logmon", e.shareDiff, None, chain, "");
      if e.hashNow.Some? {
        rec := rec.(hash := e.hashNow.value);
        var blk := e.blockNow(rec.hash);
        if blk.Some? {
          rec := rec.(reward := blk.value.reward, miner := MinerFromCoinbase(blk.value.address, e.workers));
        }
      }
      var isNew := true;
      var inserted := store.InsertBlock(e.height, ToRow(rec), e.insertFails);
      if inserted.Ok? && !inserted.value {
        isNew := false;
      }
      if !isNew {
        return;
      }
      confirmed := confirmed + 1;
      AppendBlock(rec);
    }

    method ObserveChain(network: string)
      modifies this`chain
      ensures Value() == Next(old(Value()), Poll(network))
    {
      chain := network;
    }
  }
}
