/** Laws of one sweep over one row: safety under arbitrary faults, convergence under a reliable node. */
module SweepRowLaws {
  import opened Common
  import opened BlockStore
  import opened SweepPolicy

  /** The node said another hash is canonical at `h`, and still returned our block. */
  predicate ReorgEvidence(h: int, hash: string, s: Inputs) {
    && s.hashAt(Reorg, h).Some? && s.hashAt(Reorg, h).value != hash
    && s.blockOf(Reorg, h, hash).Some?
  }

  /** Recorded facts are written once: found data never changes, filled fields stay filled. */
  predicate WriteOnce(r: Row, r': Row) {
    && r'.foundAt == r.foundAt && r'.source == r.source && r'.shareDiff == r.shareDiff
    && (r.hash != "" ==> r'.hash == r.hash)
    && (r.reward != 0 ==> r'.reward == r.reward)
    && (r.miner != "" ==> r'.miner == r.miner)
  }

  lemma LaterPassesTouchMarksOnly(h: int, b: Row, cur: string, s: Inputs)
    ensures var r := LaterPasses(h, b, cur, s); r == b.(orphanedAt := r.orphanedAt, chain := r.chain)
  {
  }

  lemma SweepIsWriteOnce(h: int, r: Row, recent: bool, cur: string, s: Inputs)
    ensures WriteOnce(r, SweptRow(h, r, recent, cur, s))
  {
    LaterPassesTouchMarksOnly(h, FirstPass(h, r, cur, s), cur, s);
  }

  /** The hash a row has once the first pass is over. */
  function HashNow(h: int, r: Row, cur: string, s: Inputs): string {
    FirstPass(h, r, cur, s).hash
  }

  /** A recent row that passes 2 and 3 look at. */
  predicate Judged(h: int, r: Row, recent: bool, cur: string, s: Inputs) {
    recent && !s.recentFails && r.foundAt * NANOS >= s.since && HashNow(h, r, cur, s) != ""
  }

  /** Whatever fails, a sweep orphans a row exactly on the evidence of both lookups, and marks it with the clock. */
  lemma OrphaningNeedsEvidence(h: int, r: Row, recent: bool, cur: string, s: Inputs)
    requires !r.Orphaned()
    ensures var r' := SweptRow(h, r, recent, cur, s);
            && (r'.Orphaned() <==>
                 && Judged(h, r, recent, cur, s) && (r.chain == "" || r.chain == cur) && ReorgEvidence(h, r'.hash, s)
                 && !s.writeFails(Reorg, h) && s.now > 0)
            && (r'.Orphaned() ==> r'.orphanedAt == s.now)
            && r'.hash == HashNow(h, r, cur, s)
  {
    var b := FirstPass(h, r, cur, s);
    assert b == r.(hash := b.hash, reward := b.reward, miner := b.miner);
    LaterPassesTouchMarksOnly(h, b, cur, s);
    hide FirstPass;
  }

  /** What clears a mark: another network's stamp, no block for the row, or its own hash named as canonical. */
  predicate ClearEvidence(h: int, r: Row, hash: string, cur: string, s: Inputs) {
    (r.chain != "" && r.chain != cur) || s.blockOf(Repair, h, hash).None? || s.hashAt(Repair, h) == Some(hash)
  }

  /** Whatever fails, a sweep clears a mark exactly on that evidence; a failed lookup of the canonical hash keeps it. */
  lemma ClearingNeedsEvidence(h: int, r: Row, recent: bool, cur: string, s: Inputs)
    requires r.Orphaned()
    ensures var r' := SweptRow(h, r, recent, cur, s);
            && (!r'.Orphaned() <==>
                 Judged(h, r, recent, cur, s) && ClearEvidence(h, r, r'.hash, cur, s) && !s.writeFails(Repair, h))
            && r'.orphanedAt == (if r'.Orphaned() then r.orphanedAt else 0)
            && r'.hash == HashNow(h, r, cur, s)
  {
    var b := FirstPass(h, r, cur, s);
    assert b == r.(hash := b.hash, reward := b.reward, miner := b.miner);
    LaterPassesTouchMarksOnly(h, b, cur, s);
    hide FirstPass;
  }

  /** The first pass treats a row of this network, found in the window, with a field unset; its reads and write succeed. */
  predicate Enriches(h: int, r: Row, cur: string, s: Inputs) {
    && (r.chain == "" || r.chain == cur) && !s.missingFails && !s.writeFails(Enrich, h)
    && r.foundAt >= s.since / NANOS && (r.hash == "" || r.reward == 0 || r.miner == "")
  }

  /** Whatever fails, what a sweep fills in: the hash the node names, and from the block of that hash reward and miner. */
  lemma EnrichmentFills(h: int, r: Row, recent: bool, cur: string, s: Inputs)
    ensures var r' := SweptRow(h, r, recent, cur, s);
            var hash := if r.hash == "" then s.hashAt(Enrich, h) else Some(r.hash);
            var blk := if hash.Some? && hash.value != "" then s.blockOf(Enrich, h, hash.value) else None;
            if Enriches(h, r, cur, s) && hash.Some? then
              && r'.hash == hash.value
              && r'.reward == (if r.reward == 0 && blk.Some? then blk.value.reward else r.reward)
              && r'.miner == (if r.miner == "" && blk.Some? then MinerFromCoinbase(blk.value.address, s.workers) else r.miner)
            else r'.hash == r.hash && r'.reward == r.reward && r'.miner == r.miner
  {
    LaterPassesTouchMarksOnly(h, FirstPass(h, r, cur, s), cur, s);
    hide LaterPasses, MinerFromCoinbase;
  }

  /** A sweep may only restamp a row without a settled stamp, or an orphan the node failed to return. */
  lemma SettledStampsStay(h: int, r: Row, recent: bool, cur: string, s: Inputs)
    ensures var b := FirstPass(h, r, cur, s);
            SweptRow(h, r, recent, cur, s).chain != r.chain ==>
              recent && (Migratable(b) || (r.chain == cur && r.Orphaned() && s.blockOf(Repair, h, b.hash).None?))
  {
  }

  // ---- convergence

  /** A node whose answers do not change: canonical chain, known blocks, canonical blocks known. */
  datatype Node = Node(canonical: int -> string, known: string -> Option<Block>)

  ghost predicate Reliable(n: Node) {
    forall h :: n.known(n.canonical(h)).Some?
  }

  /** A sweep with no failure whose answers all come from `n`. */
  ghost predicate Faithful(s: Inputs, n: Node) {
    && (forall p, h :: s.hashAt(p, h) == Some(n.canonical(h)))
    && (forall p, h, x :: s.blockOf(p, h, x) == n.known(x))
    && (forall p, h :: !s.writeFails(p, h))
    && !s.missingFails && !s.recentFails && !s.reloadFails
    && s.now > 0
  }

  /** The clock does not go back: the lookback window of the second sweep starts no earlier. Workers are free. */
  ghost predicate NoEarlier(s: Inputs, s': Inputs) {
    s.since <= s'.since
  }

  lemma WindowShrinks(r: Row, s: Inputs, s': Inputs)
    requires NoEarlier(s, s')
    ensures NeedsEnrichment(r, s'.since) ==> NeedsEnrichment(r, s.since)
    ensures InWindow(r, s') ==> InWindow(r, s)
  {
    assert s.since / NANOS <= s'.since / NANOS;
  }

  /** Only a block that pays no address leaves the miner unset, whatever workers are known. */
  lemma {:induction false} MinerUnsetIff(addr: string, workers: seq<Worker>)
    ensures MinerFromCoinbase(addr, workers) == "" <==> addr == ""
  {
    if addr != "" && workers != [] {
      MinerUnsetIff(addr, workers[1..]);
    }
  }

  /** Every worker list leaves the miner unset on the same blocks. */
  lemma MinersUnsetAlike(s: Inputs, s': Inputs)
    ensures forall addr :: MinerFromCoinbase(addr, s.workers) == "" <==> MinerFromCoinbase(addr, s'.workers) == ""
  {
    forall addr
      ensures MinerFromCoinbase(addr, s.workers) == "" <==> MinerFromCoinbase(addr, s'.workers) == ""
    {
      MinerUnsetIff(addr, s.workers);
      MinerUnsetIff(addr, s'.workers);
    }
  }

  /** A faithful first pass completes a row of this network: the canonical hash, and what its block says. */
  lemma EnrichmentCompletes(h: int, r: Row, cur: string, n: Node, s: Inputs)
    requires Faithful(s, n) && NeedsEnrichment(r, s.since) && !Foreign(r, cur) && n.canonical(h) != ""
    ensures var r' := FirstPass(h, r, cur, s);
            && r'.hash == (if r.hash == "" then n.canonical(h) else r.hash)
            && (n.known(r'.hash).Some? ==>
                 && r'.reward == (if r.reward == 0 then n.known(r'.hash).value.reward else r.reward)
                 && (r.miner == "" ==> r'.miner == MinerFromCoinbase(n.known(r'.hash).value.address, s.workers)))
  {
  }

  /** Orphaned exactly when stamped with the current chain, known to the node, and not canonical. */
  ghost predicate Settled(h: int, r: Row, cur: string, n: Node) {
    && r.chain != ""
    && (r.Orphaned() <==> r.chain == cur && n.known(r.hash).Some? && n.canonical(h) != r.hash)
  }

  /** The stamp passes 2 to 4 leave on a row they read as `b`. */
  ghost function FinalStamp(b: Row, cur: string, s: Inputs, n: Node): string {
    if b.hash == "" then b.chain
    else if Migratable(b) then (if n.known(b.hash).Some? then cur else InferOtherChain(cur))
    else if b.chain == cur && b.Orphaned() && InWindow(b, s) && n.known(b.hash).None? then InferOtherChain(cur)
    else b.chain
  }

  lemma LaterPassesStamp(h: int, b: Row, cur: string, n: Node, s: Inputs)
    requires cur != "" && Reliable(n) && Faithful(s, n)
    ensures LaterPasses(h, b, cur, s) == b.(orphanedAt := LaterPasses(h, b, cur, s).orphanedAt, chain := FinalStamp(b, cur, s, n))
    ensures b.Orphaned() && InWindow(b, s) && b.hash != "" && n.known(b.hash).None? ==> !LaterPasses(h, b, cur, s).Orphaned()
    ensures !b.Orphaned() && n.known(b.hash).None? ==> !LaterPasses(h, b, cur, s).Orphaned()
  {
  }

  /** After one sweep the stamp is final. */
  lemma OneSweepSettlesStamp(h: int, r: Row, recent: bool, cur: string, n: Node, s1: Inputs, s2: Inputs)
    requires cur != "" && Reliable(n) && Faithful(s1, n) && Faithful(s2, n) && NoEarlier(s1, s2)
    ensures var r1 := SweptRow(h, r, recent, cur, s1);
            SweptRow(h, r1, recent, cur, s2).chain == r1.chain
  {
    if recent {
      var b := FirstPass(h, r, cur, s1);
      var r1 := LaterPasses(h, b, cur, s1);
      LaterPassesStamp(h, b, cur, n, s1);
      LaterPassesStamp(h, FirstPass(h, r1, cur, s2), cur, n, s2);
      WindowShrinks(r1, s1, s2);
      if !Foreign(r, cur) {
        EnrichmentStaysDone(h, r, cur, n, s1, s2, r1);
      }
      hide LaterPasses, MinerFromCoinbase;
    }
  }

  lemma EnrichmentIsIdempotent(h: int, r: Row, cur: string, n: Node, s1: Inputs, s2: Inputs, later: Row)
    requires Faithful(s1, n) && Faithful(s2, n) && NoEarlier(s1, s2)
    requires later == FirstPass(h, r, cur, s1).(orphanedAt := later.orphanedAt)
    ensures FirstPass(h, later, cur, s2) == later
  {
    WindowShrinks(later, s1, s2);
    MinersUnsetAlike(s1, s2);
    hide MinerFromCoinbase;
  }

  lemma SettledOrphanStays(h: int, b: Row, cur: string, n: Node, s2: Inputs, s3: Inputs)
    requires cur != "" && Reliable(n) && Faithful(s2, n) && Faithful(s3, n) && NoEarlier(s2, s3)
    requires LaterPasses(h, b, cur, s2).chain == b.chain
    ensures var r2 := LaterPasses(h, b, cur, s2); LaterPasses(h, r2, cur, s3) == r2
  {
  }

  lemma TwoSweepsReachFixpoint(h: int, r: Row, recent: bool, cur: string, n: Node, s1: Inputs, s2: Inputs, s3: Inputs)
    requires cur != "" && Reliable(n) && Faithful(s1, n) && Faithful(s2, n) && Faithful(s3, n)
    requires NoEarlier(s1, s2) && NoEarlier(s2, s3)
    ensures var r2 := SweptRow(h, SweptRow(h, r, recent, cur, s1), recent, cur, s2);
            SweptRow(h, r2, recent, cur, s3) == r2
  {
    var r1 := SweptRow(h, r, recent, cur, s1);
    var r2 := SweptRow(h, r1, recent, cur, s2);
    OneSweepSettlesStamp(h, r, recent, cur, n, s1, s2);
    var b := FirstPass(h, r1, cur, s2);
    assert b.chain == r1.chain;
    LaterPassesTouchMarksOnly(h, b, cur, s2);
    EnrichmentIsIdempotent(h, r1, cur, n, s2, s3, r2);
    if recent {
      SettledOrphanStays(h, b, cur, n, s2, s3);
    }
    hide FirstPass, LaterPasses;
  }

  /** Not already attributed to a network other than the current one. */
  predicate Undecided(r: Row, cur: string) {
    r.chain == "" || r.chain == "other" || r.chain == "test" || r.chain == cur
  }

  lemma LaterPassesOrphan(h: int, b: Row, cur: string, n: Node, s: Inputs)
    requires cur != "" && Reliable(n) && Faithful(s, n)
    requires b.hash != "" && InWindow(b, s)
    ensures b.chain == cur && n.known(b.hash).Some? ==>
              (LaterPasses(h, b, cur, s).Orphaned() <==> n.canonical(h) != b.hash)
    ensures Foreign(b, cur) || n.known(b.hash).None? ==> !LaterPasses(h, b, cur, s).Orphaned()
  {
  }

  /** What two sweeps conclude, in terms of the original stamp and the node alone. */
  lemma TwoSweepsDecide(h: int, r: Row, cur: string, n: Node, s1: Inputs, s2: Inputs)
    requires cur != "" && Reliable(n) && Faithful(s1, n) && Faithful(s2, n) && NoEarlier(s1, s2)
    ensures var r2 := SweptRow(h, SweptRow(h, r, true, cur, s1), true, cur, s2);
            r2.hash != "" && InWindow(r2, s2) ==>
              && Settled(h, r2, cur, n)
              && (!Undecided(r, cur) ==> r2.chain == r.chain)
              && (Undecided(r, cur) && n.known(r2.hash).Some? ==> r2.chain == cur)
              && (r2.Orphaned() <==> Undecided(r, cur) && n.known(r2.hash).Some? && n.canonical(h) != r2.hash)
  {
    var b1 := FirstPass(h, r, cur, s1);
    var r1 := LaterPasses(h, b1, cur, s1);
    var b2 := FirstPass(h, r1, cur, s2);
    LaterPassesStamp(h, b1, cur, n, s1);
    LaterPassesStamp(h, b2, cur, n, s2);
    OneSweepSettlesStamp(h, r, true, cur, n, s1, s2);
    if b2.hash != "" && InWindow(b2, s2) {
      LaterPassesOrphan(h, b2, cur, n, s2);
    }
  }

  /** A recent row with an obsolete stamp, known to the node, that the second sweep `s` still judges or enriches. */
  predicate Pending(h: int, r: Row, recent: bool, cur: string, n: Node, s: Inputs) {
    && recent && r.hash != "" && r.chain != cur && (r.chain == "other" || r.chain == "test")
    && n.known(r.hash).Some?
    && (|| (InWindow(r, s) && n.canonical(h) != r.hash)
        || (r.foundAt >= s.since / NANOS
            && ((r.reward == 0 && n.known(r.hash).value.reward != 0)
                || (r.miner == "" && MinerFromCoinbase(n.known(r.hash).value.address, s.workers) != ""))))
  }

  /** Later changes of stamp and mark do not make enrichment of a row of this network start again. */
  lemma EnrichmentStaysDone(h: int, r: Row, cur: string, n: Node, s1: Inputs, s2: Inputs, later: Row)
    requires Faithful(s1, n) && Faithful(s2, n) && NoEarlier(s1, s2) && !Foreign(r, cur)
    requires later == FirstPass(h, r, cur, s1).(orphanedAt := later.orphanedAt, chain := later.chain)
    ensures FirstPass(h, later, cur, s2) == later
  {
    WindowShrinks(later, s1, s2);
    MinersUnsetAlike(s1, s2);
    hide MinerFromCoinbase;
  }

  lemma LaterPassesStable(h: int, b: Row, cur: string, n: Node, s1: Inputs, s2: Inputs)
    requires cur != "" && Reliable(n) && Faithful(s1, n) && Faithful(s2, n) && NoEarlier(s1, s2) && !Foreign(b, cur)
    ensures LaterPasses(h, LaterPasses(h, b, cur, s1), cur, s2) == LaterPasses(h, b, cur, s1)
  {
  }

  lemma OwnRowSettles(h: int, r: Row, recent: bool, cur: string, n: Node, s1: Inputs, s2: Inputs)
    requires cur != "" && Reliable(n) && Faithful(s1, n) && Faithful(s2, n) && NoEarlier(s1, s2) && !Foreign(r, cur)
    ensures var r1 := SweptRow(h, r, recent, cur, s1);
            SweptRow(h, r1, recent, cur, s2) == r1
  {
    var b := FirstPass(h, r, cur, s1);
    assert b.chain == r.chain;
    LaterPassesTouchMarksOnly(h, b, cur, s1);
    LaterPassesStable(h, b, cur, n, s1, s2);
    EnrichmentStaysDone(h, r, cur, n, s1, s2, if recent then LaterPasses(h, b, cur, s1) else b);
    hide LaterPasses, FirstPass;
  }

  /** What one faithful sweep makes of a recent row stamped with another network. */
  lemma ForeignRowSwept(h: int, r: Row, cur: string, n: Node, s: Inputs)
    requires cur != "" && Reliable(n) && Faithful(s, n) && Foreign(r, cur)
    ensures SweptRow(h, r, true, cur, s)
            == r.(orphanedAt := if r.Orphaned() && r.hash != "" && InWindow(r, s) then 0 else r.orphanedAt,
                  chain := FinalStamp(r, cur, s, n))
  {
  }

  /** One faithful sweep is already a fixpoint, except for a row with an obsolete stamp that turns out to be ours. */
  lemma OneSweepSufficesIff(h: int, r: Row, recent: bool, cur: string, n: Node, s1: Inputs, s2: Inputs)
    requires cur != "" && Reliable(n) && Faithful(s1, n) && Faithful(s2, n) && NoEarlier(s1, s2)
    ensures var r1 := SweptRow(h, r, recent, cur, s1);
            SweptRow(h, r1, recent, cur, s2) == r1 <==> !Pending(h, r, recent, cur, n, s2)
  {
    hide MinerFromCoinbase;
    if !Foreign(r, cur) {
      OwnRowSettles(h, r, recent, cur, n, s1, s2);
    } else if recent {
      var r1 := SweptRow(h, r, recent, cur, s1);
      ForeignRowSwept(h, r, cur, n, s1);
      if Foreign(r1, cur) {
        ForeignRowSwept(h, r1, cur, n, s2);
      } else if n.known(r.hash).Some? {
        OursAfterAll(h, r1, cur, n, s2);
      } else {
        UnknownStays(h, r1, cur, n, s2);
      }
      hide SweptRow, LaterPasses;
    }
  }

  lemma UnknownStays(h: int, r: Row, cur: string, n: Node, s: Inputs)
    requires Reliable(n) && Faithful(s, n) && r.chain == cur == "other" && r.hash != "" && n.known(r.hash).None?
    requires InWindow(r, s) ==> !r.Orphaned()
    ensures SweptRow(h, r, true, cur, s) == r
  {
    assert FirstPass(h, r, cur, s) == r;
  }

  /** A second sweep over a row just restamped to the current chain. */
  lemma OursAfterAll(h: int, r: Row, cur: string, n: Node, s: Inputs)
    requires cur != "" && Reliable(n) && Faithful(s, n)
    requires r.chain == cur && r.hash != "" && n.known(r.hash).Some? && (InWindow(r, s) ==> !r.Orphaned())
    ensures SweptRow(h, r, true, cur, s) == r
            <==> FirstPass(h, r, cur, s) == r && (InWindow(r, s) ==> n.canonical(h) == r.hash)
  {
    assert FirstPass(h, r, cur, s).chain == cur;
    LaterPassesTouchMarksOnly(h, FirstPass(h, r, cur, s), cur, s);
    hide MinerFromCoinbase;
  }

  /** The fixpoint is kept when the row leaves the newest ones between sweeps. */
  lemma FixpointThoughLeavingRecent(h: int, r: Row, rec1: bool, rec2: bool, rec3: bool, cur: string, n: Node,
                                    s1: Inputs, s2: Inputs, s3: Inputs)
    requires cur != "" && Reliable(n) && Faithful(s1, n) && Faithful(s2, n) && Faithful(s3, n)
    requires NoEarlier(s1, s2) && NoEarlier(s2, s3) && (rec3 ==> rec2) && (rec2 ==> rec1)
    ensures var r2 := SweptRow(h, SweptRow(h, r, rec1, cur, s1), rec2, cur, s2);
            SweptRow(h, r2, rec3, cur, s3) == r2
  {
    var r1 := SweptRow(h, r, rec1, cur, s1);
    var b := FirstPass(h, r1, cur, s2);
    var r2 := SweptRow(h, r1, rec2, cur, s2);
    if rec3 {
      TwoSweepsReachFixpoint(h, r, true, cur, n, s1, s2, s3);
    } else if !Foreign(r1, cur) {
      LaterPassesTouchMarksOnly(h, b, cur, s2);
      EnrichmentStaysDone(h, r1, cur, n, s2, s3, r2);
    } else if rec2 {
      OneSweepSettlesStamp(h, r, true, cur, n, s1, s2);
    }
    hide LaterPasses, MinerFromCoinbase;
  }

  // ---- convergence after faults

  /**
   * The sweep stamps the row with the counterpart of the current chain: the last pass got no block for it,
   * or, where that pass has nothing to write or cannot, an earlier one got none.
   */
  predicate GetsNoBlock(h: int, r: Row, recent: bool, cur: string, s: Inputs) {
    var b := FirstPass(h, r, cur, s);
    && recent && !s.recentFails && b.hash != ""
    && if Migratable(b) && !s.writeFails(Stamp, h) then s.blockOf(Stamp, h, b.hash).None? else
         && InWindow(b, s)
         && if b.Orphaned() then
              (b.chain == "" || b.chain == cur) && s.blockOf(Repair, h, b.hash).None? && !s.writeFails(Repair, h)
            else
              && b.chain == "" && s.hashAt(Reorg, h).Some? && s.hashAt(Reorg, h).value != b.hash
              && s.blockOf(Reorg, h, b.hash).None? && !s.writeFails(Reorg, h)
  }

  /** The last pass stamps the row with the current chain. */
  predicate GetsBlock(h: int, r: Row, recent: bool, cur: string, s: Inputs) {
    var b := FirstPass(h, r, cur, s);
    && recent && !s.recentFails && Migratable(b) && !s.writeFails(Stamp, h) && s.blockOf(Stamp, h, b.hash).Some?
  }

  /** A row of the current chain is attributed to another network. A chain other than these two has no definite counterpart. */
  predicate TurnsAway(h: int, r: Row, recent: bool, cur: string, s: Inputs) {
    (cur == "main" || cur == "testnet4") && GetsNoBlock(h, r, recent, cur, s)
  }

  /** The network a stamp names, None for a missing or obsolete one. */
  function Named(stamp: string): Option<string> {
    if stamp == "" || stamp == "other" || stamp == "test" then None else Some(stamp)
  }

  /** Whatever fails in a sweep, the stamp it leaves a row with depends on those lookups and writes alone. */
  lemma SweepAttributes(h: int, r: Row, recent: bool, cur: string, s: Inputs)
    requires cur != ""
    ensures SweptRow(h, r, recent, cur, s).chain ==
              if GetsNoBlock(h, r, recent, cur, s) then InferOtherChain(cur)
              else if GetsBlock(h, r, recent, cur, s) then cur
              else r.chain
  {
    var b := FirstPass(h, r, cur, s);
    assert b.chain == r.chain;
    LaterPassesChain(h, b, cur, s);
    hide FirstPass, LaterPasses;
  }

  /** Whatever fails in a sweep, it turns a row away exactly on the failed lookups that predicate names. */
  lemma SweepTurnsAwayIff(h: int, r: Row, recent: bool, cur: string, s: Inputs)
    requires cur != "" && Undecided(r, cur)
    ensures !Undecided(SweptRow(h, r, recent, cur, s), cur) <==> TurnsAway(h, r, recent, cur, s)
  {
    SweepAttributes(h, r, recent, cur, s);
    hide SweptRow, GetsNoBlock, GetsBlock;
  }

  lemma LaterPassesChain(h: int, b: Row, cur: string, s: Inputs)
    ensures var restamp := PassStep(Repair, h, b, PassStep(Reorg, h, b, b, cur, s), cur, s).chain;
            LaterPasses(h, b, cur, s).chain ==
              if !Migratable(b) || s.writeFails(Stamp, h) then restamp
              else if s.blockOf(Stamp, h, b.hash).None? then InferOtherChain(cur) else cur
  {
  }

  /** A stamp naming a third network is never revisited, and keeps the row unorphaned. */
  lemma ForeignStampIsForever(h: int, r: Row, recent: bool, cur: string, s: Inputs)
    requires !Undecided(r, cur)
    ensures var r' := SweptRow(h, r, recent, cur, s);
            r'.chain == r.chain && (!r.Orphaned() ==> !r'.Orphaned())
  {
  }

  /** A row with any other network's stamp is not orphaned by this sweep; the stamp goes exactly if it is obsolete and the last pass writes. */
  lemma ForeignStampGoesIff(h: int, r: Row, recent: bool, cur: string, s: Inputs)
    requires Foreign(r, cur)
    ensures var r' := SweptRow(h, r, recent, cur, s);
            && (!r.Orphaned() ==> !r'.Orphaned())
            && (r'.chain != r.chain <==>
                 && recent && !s.recentFails && Migratable(r) && !s.writeFails(Stamp, h)
                 && r.chain != if s.blockOf(Stamp, h, r.hash).Some? then cur else InferOtherChain(cur))
  {
  }

  /** A sweep as one row meets it: whether the row is among the newest, and the current chain, which may have switched. */
  datatype Sweeping = Sweeping(inputs: Inputs, recent: bool, cur: string)

  function SweptThrough(h: int, r: Row, ss: seq<Sweeping>): Row {
    if ss == [] then r else
      var before, last := SweptThrough(h, r, ss[..|ss| - 1]), ss[|ss| - 1];
      if last.cur == "" then before else SweptRow(h, before, last.recent, last.cur, last.inputs)
  }

  predicate AttributesAt(h: int, r: Row, ss: seq<Sweeping>, i: int)
    requires 0 <= i < |ss|
  {
    var before, s := SweptThrough(h, r, ss[..i]), ss[i];
    s.cur != "" && (GetsNoBlock(h, before, s.recent, s.cur, s.inputs) || GetsBlock(h, before, s.recent, s.cur, s.inputs))
  }

  lemma AttributesBefore(h: int, r: Row, ss: seq<Sweeping>)
    requires ss != []
    ensures forall k :: 0 <= k < |ss| - 1 ==> AttributesAt(h, r, ss[..|ss| - 1], k) == AttributesAt(h, r, ss, k)
  {
    forall k | 0 <= k < |ss| - 1
      ensures AttributesAt(h, r, ss[..|ss| - 1], k) == AttributesAt(h, r, ss, k)
    {
      assert ss[..|ss| - 1][..k] == ss[..k];
    }
  }

  /** The last sweep that attributed the row to a network, -1 if none did. */
  function LastAttribution(h: int, r: Row, ss: seq<Sweeping>): (i: int)
    ensures -1 <= i < |ss| && (i >= 0 ==> AttributesAt(h, r, ss, i))
    ensures forall k :: i < k < |ss| ==> !AttributesAt(h, r, ss, k)
  {
    if ss == [] then -1 else
      var n := |ss| - 1;
      AttributesBefore(h, r, ss);
      if AttributesAt(h, r, ss, n) then n else LastAttribution(h, r, ss[..n])
  }

  /** The network that sweep gave the row, or the one the row came with. */
  function Attribution(h: int, r: Row, ss: seq<Sweeping>): Option<string> {
    var i := LastAttribution(h, r, ss);
    if i < 0 then Named(r.chain) else
      var s := ss[i];
      Named(if GetsNoBlock(h, SweptThrough(h, r, ss[..i]), s.recent, s.cur, s.inputs) then InferOtherChain(s.cur) else s.cur)
  }

  /** Through any faults and network switches, a row's network is the one its last attributing sweep gave it. */
  lemma {:induction false} StampIsLastAttribution(h: int, r: Row, ss: seq<Sweeping>)
    ensures Named(SweptThrough(h, r, ss).chain) == Attribution(h, r, ss)
  {
    if ss != [] {
      var n := |ss| - 1;
      var before, s := SweptThrough(h, r, ss[..n]), ss[n];
      StampIsLastAttribution(h, r, ss[..n]);
      if s.cur != "" {
        SweepAttributes(h, before, s.recent, s.cur, s.inputs);
      }
      var i := LastAttribution(h, r, ss[..n]);
      assert i >= 0 ==> ss[..n][..i] == ss[..i];
      hide SweptRow, GetsNoBlock, GetsBlock, InferOtherChain, Named;
    }
  }

  /** A row counts as another network's than `cur` exactly if that last attribution says so. */
  lemma TurnedAwayIff(h: int, r: Row, cur: string, ss: seq<Sweeping>)
    ensures var a := Attribution(h, r, ss);
            !Undecided(SweptThrough(h, r, ss), cur) <==> a.Some? && a.value != cur
  {
    StampIsLastAttribution(h, r, ss);
    hide SweptThrough, Attribution;
  }

  /** After any faulty sweeps, on any networks, two faithful ones orphan exactly the reorganised rows not attributed elsewhere. */
  lemma FaultsThenTwoSweepsDecide(h: int, r: Row, cur: string, ss: seq<Sweeping>, n: Node, s1: Inputs, s2: Inputs)
    requires cur != "" && Reliable(n) && Faithful(s1, n) && Faithful(s2, n) && NoEarlier(s1, s2)
    ensures var r2 := SweptRow(h, SweptRow(h, SweptThrough(h, r, ss), true, cur, s1), true, cur, s2);
            var a := Attribution(h, r, ss);
            r2.hash != "" && InWindow(r2, s2) ==>
              (r2.Orphaned() <==> (a.None? || a.value == cur) && n.known(r2.hash).Some? && n.canonical(h) != r2.hash)
  {
    TurnedAwayIff(h, r, cur, ss);
    TwoSweepsDecide(h, SweptThrough(h, r, ss), cur, n, s1, s2);
    hide SweptRow, SweptThrough, Attribution, Undecided, Settled;
  }

  /** One failed lookup in the last pass hides a real reorg from every later sweep. */
  lemma FailedLookupHidesReorg(n: Node, s1: Inputs, s2: Inputs)
    requires s1.since == s2.since == 0 && !s1.recentFails && Faithful(s2, n)
    requires s1.blockOf(Stamp, 7, "a") == None && !s1.writeFails(Stamp, 7)
    requires n.canonical(7) == "b" && n.known("a").Some?
    ensures var r := Row("a", 1, 1, "logmon", 0.0, 0, "", "m");
            var r1 := SweptRow(7, r, true, "main", s1);
            var r2 := SweptRow(7, r1, true, "main", s2);
            r1.chain == r2.chain == "testnet4" && !r2.Orphaned()
  {
  }

  /** One reliable sweep is not always enough: an obsolete stamp delays the reorg check to the next. */
  lemma OneSweepIsNotEnough(n: Node, s1: Inputs, s2: Inputs)
    requires Faithful(s1, n) && Faithful(s2, n) && s1.since == s2.since == 0
    requires n.canonical(7) == "b" && n.known("a").Some?
    ensures var r := Row("a", 1, 1, "logmon", 0.0, 0, "other", "m");
            var r1 := SweptRow(7, r, true, "main", s1);
            !r1.Orphaned() && SweptRow(7, r1, true, "main", s2).Orphaned()
  {
  }
}
