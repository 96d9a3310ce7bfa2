/**
 * What one reconciliation sweep decides about one row.
 *
 * The sweep asks the node at most once per (pass, height) for a canonical hash and at most once
 * for a block, so answers indexed by pass and height cover every pattern of RPC failures.
 */
module SweepPolicy {
  import opened Common
  import opened BlockStore

  datatype Block = Block(reward: int, address: string)

  datatype Worker = Worker(user: string, worker: string)

  datatype Pass = Enrich | Reorg | Repair | Stamp

  /** Everything a sweep learns from outside: clocks, workers, node answers, database faults. */
  datatype Inputs = Inputs(
    since: int,  // start of the lookback window, nanoseconds
    now: int,    // clock reading used to mark orphans, seconds
    workers: seq<Worker>,
    hashAt: (Pass, int) -> Option<string>,
    blockOf: (Pass, int, string) -> Option<Block>,
    writeFails: (Pass, int) -> bool,
    missingFails: bool, recentFails: bool, reloadFails: bool)

  const WINDOW := 64

  function InferOtherChain(current: string): (other: string)
    ensures other == current ==> current == "other"
    ensures other != ""
  {
    if current == "main" then "testnet4"
    else if current == "testnet4" then "main"
    else "other"
  }

  /** The two supported networks are each other's counterpart; no other one has a definite counterpart. */
  lemma CounterpartsPair(cur: string)
    ensures var other := InferOtherChain(cur);
            if cur == "main" || cur == "testnet4" then
              other != cur && (other == "main" || other == "testnet4") && InferOtherChain(other) == cur
            else other == "other"
  {
  }

  /** The part of a stratum user name before the first dot. */
  function Address(user: string): string {
    if user == [] || user[0] == '.' then [] else [user[0]] + Address(user[1..])
  }

  function MinerFromCoinbase(addr: string, workers: seq<Worker>): string {
    if addr == "" || workers == [] then addr
    else if Address(workers[0].user) == addr then workers[0].user + "." + workers[0].worker
    else MinerFromCoinbase(addr, workers[1..])
  }

  /** The address is the part up to the first dot, or the whole name. */
  lemma {:induction false} AddressIsPrefix(user: string)
    ensures Address(user) <= user && '.' !in Address(user)
    ensures |Address(user)| < |user| ==> user[|Address(user)|] == '.'
  {
    if user != [] && user[0] != '.' {
      AddressIsPrefix(user[1..]);
    }
  }

  /** The first worker paid at the address names the miner; without one the address does. */
  lemma {:induction false} MinerIsFirstMatch(addr: string, workers: seq<Worker>, i: nat)
    requires addr != "" && i <= |workers|
    requires forall k :: 0 <= k < i ==> Address(workers[k].user) != addr
    ensures i == |workers| ==> MinerFromCoinbase(addr, workers) == addr
    ensures i < |workers| && Address(workers[i].user) == addr ==>
              MinerFromCoinbase(addr, workers) == workers[i].user + "." + workers[i].worker
  {
    if i > 0 {
      MinerIsFirstMatch(addr, workers[1..], i - 1);
    }
  }

  predicate Foreign(r: Row, cur: string) {
    r.chain != "" && r.chain != cur
  }

  predicate InWindow(r: Row, s: Inputs) {
    r.foundAt * NANOS >= s.since
  }

  predicate Migratable(r: Row) {
    (r.chain == "" || r.chain == "other" || r.chain == "test") && r.hash != ""
  }

  // ---- pass 1

  function Enriched(h: int, r: Row, cur: string, s: Inputs): Row {
    if Foreign(r, cur) then r else
      var found := if r.hash == "" then s.hashAt(Enrich, h) else Some(r.hash);
      if found.None? then r else
        var hash := found.value;
        var blk := if (r.reward == 0 || r.miner == "") && hash != "" then s.blockOf(Enrich, h, hash) else None;
        if blk.None? then r.(hash := hash) else
          r.(hash := hash,
             reward := if r.reward == 0 then blk.value.reward else r.reward,
             miner := if r.miner == "" then MinerFromCoinbase(blk.value.address, s.workers) else r.miner)
  }

  predicate EnrichWrites(h: int, r: Row, cur: string, s: Inputs) {
    Enriched(h, r, cur, s) != r && !s.writeFails(Enrich, h)
  }

  function EnrichStep(h: int, r: Row, cur: string, s: Inputs): Row {
    if EnrichWrites(h, r, cur, s) then Enriched(h, r, cur, s) else r
  }

  // ---- passes 2 to 4 decide on the copy `b` read before any of them wrote

  datatype Verdict = Keep | Orphan | Restamp(chain: string) | Clear | ClearRestamp(to: string)

  function ReorgVerdict(h: int, b: Row, cur: string, s: Inputs): Verdict {
    if b.hash == "" || b.Orphaned() || !InWindow(b, s) || Foreign(b, cur) then Keep else
      var canonical := s.hashAt(Reorg, h);
      if canonical.None? || canonical.value == b.hash then Keep
      else if s.blockOf(Reorg, h, b.hash).None? then Restamp(if b.chain == "" then InferOtherChain(cur) else b.chain)
      else Orphan
  }

  function RepairVerdict(h: int, b: Row, cur: string, s: Inputs): Verdict {
    if !b.Orphaned() || b.hash == "" || !InWindow(b, s) then Keep
    else if Foreign(b, cur) then Clear
    else if s.blockOf(Repair, h, b.hash).None? then
      ClearRestamp(if b.chain == "" || b.chain == cur then InferOtherChain(cur) else b.chain)
    else if s.hashAt(Repair, h) == Some(b.hash) then Clear
    else Keep
  }

  function StampVerdict(h: int, b: Row, cur: string, s: Inputs): Verdict {
    if !Migratable(b) then Keep
    else if s.blockOf(Stamp, h, b.hash).None? then Restamp(InferOtherChain(cur))
    else Restamp(cur)
  }

  function VerdictOf(p: Pass, h: int, b: Row, cur: string, s: Inputs): Verdict {
    match p
    case Enrich => Keep
    case Reorg => ReorgVerdict(h, b, cur, s)
    case Repair => RepairVerdict(h, b, cur, s)
    case Stamp => StampVerdict(h, b, cur, s)
  }

  predicate Writes(p: Pass, h: int, b: Row, cur: string, s: Inputs) {
    VerdictOf(p, h, b, cur, s) != Keep && !s.writeFails(p, h)
  }

  function Apply(v: Verdict, r: Row, now: int): Row {
    match v
    case Keep => r
    case Orphan => r.(orphanedAt := now)
    case Restamp(c) => r.(chain := c)
    case Clear => r.(orphanedAt := 0)
    case ClearRestamp(c) => r.(orphanedAt := 0, chain := c)
  }

  /** The stored row `r` after pass `p` judged the copy `b`. */
  function PassStep(p: Pass, h: int, b: Row, r: Row, cur: string, s: Inputs): Row {
    if Writes(p, h, b, cur, s) then Apply(VerdictOf(p, h, b, cur, s), r, s.now) else r
  }

  function FirstPass(h: int, r: Row, cur: string, s: Inputs): Row {
    if s.missingFails || !NeedsEnrichment(r, s.since) then r else EnrichStep(h, r, cur, s)
  }

  function LaterPasses(h: int, b: Row, cur: string, s: Inputs): Row {
    PassStep(Stamp, h, b, PassStep(Repair, h, b, PassStep(Reorg, h, b, b, cur, s), cur, s), cur, s)
  }

  /** The row at height `h` after a whole sweep; `recent` says whether it is among the newest 64. */
  function SweptRow(h: int, r: Row, recent: bool, cur: string, s: Inputs): Row {
    var b := FirstPass(h, r, cur, s);
    if recent && !s.recentFails then LaterPasses(h, b, cur, s) else b
  }
}
