/** The persistent `blocks` table: one row per height, updated in place. */
module BlockStore {
  import opened Common

  /** A row. Rewards are in satoshis, `foundAt` and `orphanedAt` in unix seconds. */
  datatype Row = Row(hash: string, reward: int, foundAt: int, source: string, shareDiff: real,
                     orphanedAt: int, chain: string, miner: string)
  {
    predicate Orphaned() {
      orphanedAt > 0
    }
  }

  type Table = map<int, Row>

  /** A row as handed to callers: a copy, together with its height. */
  datatype Stored = Stored(height: int, row: Row)

  const NANOS := 1_000_000_000

  /** Selected for enrichment: found in the window (whole seconds) and with a field still unset. */
  predicate NeedsEnrichment(r: Row, sinceNanos: int) {
    r.foundAt >= sinceNanos / NANOS && (r.hash == "" || r.reward == 0 || r.miner == "")
  }

  /** `out` copies exactly the rows of `t` at the heights in `hs`, in that order. */
  ghost predicate Copies(t: Table, hs: seq<int>, out: seq<Stored>) {
    && |out| == |hs|
    && forall i :: 0 <= i < |hs| ==> hs[i] in t && out[i] == Stored(hs[i], t[hs[i]])
  }

  ghost function Incomplete(t: Table, sinceNanos: int): set<int> {
    set h | h in t && NeedsEnrichment(t[h], sinceNanos)
  }

  lemma SplitFirst(hs: seq<int>, left: set<int>)
    requires left != {}
    ensures hs + Descending(left) == hs + [Greatest(left)] + Descending(left - {Greatest(left)})
  {
  }

  /** Removes the greatest member; every ordered scan below is driven by it. */
  method TakeGreatest(s: set<int>) returns (m: int, rest: set<int>)
    requires s != {}
    ensures m == Greatest(s) && rest == s - {m} && |rest| < |s|
  {
    GreatestExists(s);
    m :| m in s && forall x :: x in s ==> x <= m;
    rest := s - {m};
  }

  /** `failed` parameters say whether the database refuses this call. */
  class Blocks {
    var rows: Table

    constructor ()
      ensures rows == map[]
    {
      rows := map[];
    }

    method InsertBlock(height: int, row: Row, failed: bool) returns (r: Result<bool, ()>)
      modifies this
      ensures failed ==> r.Err? && rows == old(rows)
      ensures !failed ==> r == Ok(height !in old(rows))
      ensures !failed ==> rows == if height in old(rows) then old(rows) else old(rows)[height := row.(orphanedAt := 0)]
    {
      if failed {
        return Err(());
      }
      if height in rows {
        return Ok(false);
      }
      rows := rows[height := row.(orphanedAt := 0)];
      r := Ok(true);
    }

    method Recent(limit: int, failed: bool) returns (r: Result<seq<Stored>, ()>)
      ensures failed <==> r.Err?
      ensures r.Ok? ==> Copies(rows, Newest(rows.Keys, if limit <= 0 then 256 else limit), r.value)
    {
      if failed {
        return Err(());
      }
      var n := if limit <= 0 then 256 else limit;
      var left := rows.Keys;
      var out: seq<Stored> := [];
      ghost var hs: seq<int> := [];
      while left != {} && |out| < n
        invariant |out| == |hs| <= n && left <= rows.Keys
        invariant Copies(rows, hs, out)
        invariant hs + Descending(left) == Descending(rows.Keys)
        decreases |left|
      {
        var m, rest := TakeGreatest(left);
        out := out + [Stored(m, rows[m])];
        SplitFirst(hs, left);
        hs, left := hs + [m], rest;
      }
      assert hs == Newest(rows.Keys, n);
      r := Ok(out);
    }

    /** Lowest height first. */
    method BlocksNeedingEnrichment(sinceNanos: int, failed: bool) returns (r: Result<seq<Stored>, ()>)
      ensures failed <==> r.Err?
      ensures r.Ok? ==> exists hs ::
                          && Copies(rows, hs, r.value)
                          && (forall h :: h in hs <==> h in Incomplete(rows, sinceNanos))
                          && (forall i, j :: 0 <= i < j < |hs| ==> hs[i] < hs[j])
    {
      if failed {
        return Err(());
      }
      var left := set h | h in rows && NeedsEnrichment(rows[h], sinceNanos);
      var out: seq<Stored> := [];
      ghost var hs: seq<int> := [];
      while left != {}
        invariant left <= rows.Keys
        invariant Copies(rows, hs, out)
        invariant forall h :: h in hs || h in left <==> h in Incomplete(rows, sinceNanos)
        invariant forall i, j :: 0 <= i < j < |hs| ==> hs[i] < hs[j]
        invariant forall i, x :: 0 <= i < |hs| && x in left ==> x < hs[i]
        decreases |left|
      {
        var m, rest := TakeGreatest(left);
        out, hs := [Stored(m, rows[m])] + out, [m] + hs;
        left := rest;
      }
      r := Ok(out);
    }

    method UpdateEnrichment(height: int, hash: string, reward: int, miner: string, failed: bool) returns (ok: bool)
      modifies this
      ensures ok == !failed
      ensures rows == if failed || height !in old(rows) then old(rows)
                      else old(rows)[height := old(rows)[height].(hash := hash, reward := reward, miner := miner)]
    {
      if !failed && height in rows {
        rows := rows[height := rows[height].(hash := hash, reward := reward, miner := miner)];
      }
      ok := !failed;
    }

    method MarkOrphaned(height: int, at: int, failed: bool) returns (ok: bool)
      modifies this
      ensures ok == !failed
      ensures rows == if failed || height !in old(rows) then old(rows)
                      else old(rows)[height := old(rows)[height].(orphanedAt := at)]
    {
      if !failed && height in rows {
        rows := rows[height := rows[height].(orphanedAt := at)];
      }
      ok := !failed;
    }

    method UnmarkOrphaned(height: int, failed: bool) returns (ok: bool)
      modifies this
      ensures ok == !failed
      ensures rows == if failed || height !in old(rows) then old(rows)
                      else old(rows)[height := old(rows)[height].(orphanedAt := 0)]
    {
      ok := MarkOrphaned(height, 0, failed);
    }

    method UnmarkOrphanedStampChain(height: int, chain: string, failed: bool) returns (ok: bool)
      modifies this
      ensures ok == !failed
      ensures rows == if failed || height !in old(rows) then old(rows)
                      else old(rows)[height := old(rows)[height].(orphanedAt := 0, chain := chain)]
    {
      if !failed && height in rows {
        rows := rows[height := rows[height].(orphanedAt := 0, chain := chain)];
      }
      ok := !failed;
    }

    method StampChain(height: int, chain: string, failed: bool) returns (ok: bool)
      modifies this
      ensures ok == !failed
      ensures rows == if failed || height !in old(rows) then old(rows)
                      else old(rows)[height := old(rows)[height].(chain := chain)]
    {
      if !failed && height in rows {
        rows := rows[height := rows[height].(chain := chain)];
      }
      ok := !failed;
    }
  }
}
