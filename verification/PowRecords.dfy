/** Which proof-of-work record ends up as the best: the live pairing and the batch scan of a log. */
module PowRecords {
  import opened Common
  import opened ShareLog

  datatype Pairing = Pairing(pending: map<string, Pow>, best: Option<Pow>)

  function Step(p: Pairing, l: Line): Pairing {
    match l
    case PowLine(Some(rec)) => p.(pending := Park(p.pending, rec))
    case Accepted(_, h) =>
      if h in p.pending then Pairing(p.pending - {h}, Better(p.best, p.pending[h])) else p
    case _ => p
  }

  /** The pairing after a log, from nothing. */
  function Pair(lines: seq<Line>): Pairing {
    if lines == [] then Pairing(map[], None) else Step(Pair(lines[..|lines| - 1]), lines[|lines| - 1])
  }

  method FindBestPowData(lines: seq<Line>) returns (best: Option<Pow>, seen: nat, unparseable: nat)
    ensures best == Pair(lines).best
    ensures unparseable <= seen <= |lines|
    ensures best.Some? ==> seen > unparseable
  {
    best, seen, unparseable := None, 0, 0;
    var pending: map<string, Pow> := map[];
    for i := 0 to |lines|
      invariant Pairing(pending, best) == Pair(lines[..i])
      invariant unparseable <= seen <= i
      invariant (best.Some? || pending != map[]) ==> seen > unparseable
    {
      assert lines[..i + 1][..i] == lines[..i];
      match lines[i]
      case PowLine(rec) =>
        seen := seen + 1;
        if rec.None? {
          unparseable := unparseable + 1;
        } else {
          if |pending| >= PENDING_LIMIT {
            pending := map[];
          }
          pending := pending[rec.value.hash := rec.value];
        }
      case Accepted(_, h) =>
        if h in pending {
          var pow := pending[h];
          pending := pending - {h};
          if best.None? || pow.sdiff > best.value.sdiff {
            best := Some(pow);
          }
        }
      case _ =>
    }
    assert lines[..|lines|] == lines;
  }

  /** The live path reaches the same pairing as the batch scan. */
  lemma {:induction false} LivePairingEqualsScan(lines: seq<Line>)
    ensures var a := IngestAll(FRESH, Events(lines)); Pairing(a.pending, a.best) == Pair(lines)
  {
    if lines != [] {
      var n := |lines| - 1;
      LivePairingEqualsScan(lines[..n]);
      assert lines == lines[..n] + [lines[n]];
      EventsIngest(FRESH, lines[..n], lines[n]);
      LinePairs(IngestAll(FRESH, Events(lines[..n])), lines[n]);
      hide IngestAll, IngestLine, Step;
    }
  }

  lemma LinePairs(a: Live, l: Line)
    requires |a.session.dist| == |a.alltime.dist| == 6
    ensures var b := IngestLine(a, l); Pairing(b.pending, b.best) == Step(Pairing(a.pending, a.best), l)
  {
    hide AddAccept, AddReject, Park, Better;
  }

  // ---- what the pairing means, without the map

  /** Line `k` carries a decodable record. */
  predicate Carries(l: Line) {
    l.PowLine? && l.rec.Some?
  }

  /** Line `k` finds the parking full and clears it before parking its own record. */
  predicate Clears(lines: seq<Line>, k: nat)
    requires k < |lines|
  {
    Carries(lines[k]) && |Pair(lines[..k]).pending| >= PENDING_LIMIT
  }

  /** Line `k` ends the parking of hash `h`. */
  predicate Unparks(lines: seq<Line>, k: nat, h: string)
    requires k < |lines|
  {
    || Clears(lines, k)
    || (Carries(lines[k]) && lines[k].rec.value.hash == h)
    || (lines[k].Accepted? && lines[k].hash == h)
  }

  /** The record of line `i` is still parked at the end of `lines`. */
  predicate StillParked(lines: seq<Line>, i: nat)
    requires i < |lines|
  {
    Carries(lines[i]) && forall k :: i < k < |lines| ==> !Unparks(lines, k, lines[i].rec.value.hash)
  }

  lemma StillParkedPrefix(lines: seq<Line>, l: Line, i: nat)
    requires i < |lines|
    ensures StillParked(lines + [l], i) <==>
              StillParked(lines, i) && !Unparks(lines + [l], |lines|, lines[i].rec.value.hash)
  {
    var all := lines + [l];
    assert forall k :: 0 <= k <= |lines| ==> all[..k] == lines[..k];
    if Carries(lines[i]) {
      assert forall k :: i < k < |lines| ==> Unparks(all, k, lines[i].rec.value.hash) == Unparks(lines, k, lines[i].rec.value.hash);
    }
  }

  ghost predicate ParkedAs(lines: seq<Line>, rec: Pow) {
    exists i :: 0 <= i < |lines| && StillParked(lines, i) && lines[i].rec == Some(rec)
  }

  /** The parking map holds exactly the records still parked, and at most 16 of them. */
  lemma {:induction false} PendingIff(lines: seq<Line>, rec: Pow)
    ensures |Pair(lines).pending| <= 16
    ensures (rec.hash in Pair(lines).pending && Pair(lines).pending[rec.hash] == rec) <==> ParkedAs(lines, rec)
  {
    if lines != [] {
      var n := |lines| - 1;
      PendingIff(lines[..n], rec);
      ParkedStep(lines[..n], lines[n], rec);
      assert lines == lines[..n] + [lines[n]];
    }
  }

  lemma ParkedStep(lines: seq<Line>, l: Line, rec: Pow)
    ensures ParkedAs(lines + [l], rec) <==>
              || (Carries(l) && l.rec.value == rec)
              || (ParkedAs(lines, rec) && !Unparks(lines + [l], |lines|, rec.hash))
  {
    var all := lines + [l];
    if Carries(l) && l.rec.value == rec {
      assert StillParked(all, |lines|);
    }
    if ParkedAs(lines, rec) && !Unparks(all, |lines|, rec.hash) {
      var i :| 0 <= i < |lines| && StillParked(lines, i) && lines[i].rec == Some(rec);
      StillParkedPrefix(lines, l, i);
      assert all[i].rec == Some(rec);
    }
    if ParkedAs(all, rec) {
      var i :| 0 <= i < |all| && StillParked(all, i) && all[i].rec == Some(rec);
      if i < |lines| {
        StillParkedPrefix(lines, l, i);
      }
    }
  }

  /** Line `j` accepts the hash of a record parked at that point. */
  ghost predicate Confirms(lines: seq<Line>, j: nat, rec: Pow)
    requires j < |lines|
  {
    lines[j].Accepted? && lines[j].hash == rec.hash && ParkedAs(lines[..j], rec)
  }

  /** `rec` was confirmed first among the confirmed records of greatest difficulty. */
  ghost predicate IsBest(lines: seq<Line>, rec: Pow) {
    exists j :: 0 <= j < |lines| && Confirms(lines, j, rec)
      && forall k, r :: 0 <= k < |lines| && Confirms(lines, k, r) ==> if k < j then r.sdiff < rec.sdiff else r.sdiff <= rec.sdiff
  }

  lemma ConfirmsPrefix(lines: seq<Line>, l: Line, j: nat, rec: Pow)
    requires j < |lines|
    ensures Confirms(lines + [l], j, rec) <==> Confirms(lines, j, rec)
  {
    assert (lines + [l])[..j] == lines[..j];
  }

  lemma LastConfirms(lines: seq<Line>, l: Line, rec: Pow)
    ensures Confirms(lines + [l], |lines|, rec) <==>
              l.Accepted? && l.hash == rec.hash && rec.hash in Pair(lines).pending && Pair(lines).pending[rec.hash] == rec
  {
    assert (lines + [l])[..|lines|] == lines;
    PendingIff(lines, rec);
  }

  /** The scan returns the confirmed record of greatest difficulty, the earliest on ties; none if none was confirmed. */
  lemma {:induction false} BestIsGreatestConfirmed(lines: seq<Line>)
    ensures Pair(lines).best.None? ==> forall j, r :: 0 <= j < |lines| ==> !Confirms(lines, j, r)
    ensures Pair(lines).best.Some? ==> IsBest(lines, Pair(lines).best.value)
  {
    if lines != [] {
      var n := |lines| - 1;
      var before, l := lines[..n], lines[n];
      assert lines == before + [l];
      BestIsGreatestConfirmed(before);
      forall j, r | 0 <= j < n
        ensures Confirms(lines, j, r) <==> Confirms(before, j, r)
      {
        ConfirmsPrefix(before, l, j, r);
      }
      forall r
        ensures Confirms(lines, n, r) <==>
                  l.Accepted? && l.hash == r.hash && r.hash in Pair(before).pending && Pair(before).pending[r.hash] == r
      {
        LastConfirms(before, l, r);
      }
      BestStep(lines);
    }
  }

  lemma {:induction false} KeysAreHashes(lines: seq<Line>)
    ensures forall h :: h in Pair(lines).pending ==> Pair(lines).pending[h].hash == h
  {
    if lines != [] {
      KeysAreHashes(lines[..|lines| - 1]);
    }
  }

  lemma BestStep(lines: seq<Line>)
    requires lines != []
    requires var n := |lines| - 1;
             var before, l := lines[..n], lines[n];
             && (Pair(before).best.None? ==> forall j, r :: 0 <= j < n ==> !Confirms(before, j, r))
             && (Pair(before).best.Some? ==> IsBest(before, Pair(before).best.value))
             && (forall j, r :: 0 <= j < n ==> (Confirms(lines, j, r) <==> Confirms(before, j, r)))
             && (forall r :: Confirms(lines, n, r) <==>
                   l.Accepted? && l.hash == r.hash && r.hash in Pair(before).pending && Pair(before).pending[r.hash] == r)
    ensures Pair(lines).best.None? ==> forall j, r :: 0 <= j < |lines| ==> !Confirms(lines, j, r)
    ensures Pair(lines).best.Some? ==> IsBest(lines, Pair(lines).best.value)
  {
    var n := |lines| - 1;
    var before, l := lines[..n], lines[n];
    var old', new' := Pair(before).best, Pair(lines).best;
    KeysAreHashes(before);
    hide Confirms, Park;
    if !(l.Accepted? && l.hash in Pair(before).pending) {
      assert new' == old';
      assert forall r :: !Confirms(lines, n, r);
      hide Pair;
      KeepBest(lines, old');
    } else {
      var rec := Pair(before).pending[l.hash];
      assert new' == Better(old', rec);
      assert forall r :: Confirms(lines, n, r) <==> r == rec;
      hide Pair;
      if new' == old' {
        KeepBest(lines, old');
      } else {
        assert Confirms(lines, n, rec);
      }
    }
  }

  /** A best record stays best when the last line confirms nothing better. */
  lemma KeepBest(lines: seq<Line>, best: Option<Pow>)
    requires lines != []
    requires var before := lines[..|lines| - 1];
             && (forall j, r :: 0 <= j < |before| ==> (Confirms(lines, j, r) <==> Confirms(before, j, r)))
             && (best.Some? ==> IsBest(before, best.value))
    requires best.Some? ==> forall r :: Confirms(lines, |lines| - 1, r) ==> r.sdiff <= best.value.sdiff
    ensures best.Some? ==> IsBest(lines, best.value)
  {
    hide Confirms;
    if best.Some? {
      var before := lines[..|lines| - 1];
      var j :| 0 <= j < |before| && Confirms(before, j, best.value)
        && forall k, r :: 0 <= k < |before| && Confirms(before, k, r) ==>
             if k < j then r.sdiff < best.value.sdiff else r.sdiff <= best.value.sdiff;
      assert Confirms(lines, j, best.value);
    }
  }
}
