/** When the refresh loop kills ckpool so that miners can fail over. */
module KillSwitch {

  const FAIL_THRESHOLD := 3

  /** One refresh: the node's answer, the submit counters, and whether a kill would succeed. */
  datatype Refresh = Refresh(nodeOk: bool, attempts: int, confirmed: int, killWorks: bool)

  datatype State = State(failStreak: int, killed: bool)

  const START := State(0, false)

  function AfterPoll(s: State, r: Refresh): State {
    if r.nodeOk then State(0, false) else s.(failStreak := s.failStreak + 1)
  }

  /** The refresh sends the signal. */
  predicate TriesKill(s: State, r: Refresh) {
    var s := AfterPoll(s, r);
    s.failStreak >= FAIL_THRESHOLD && !s.killed && r.attempts - r.confirmed <= 0
  }

  function Next(s: State, r: Refresh): State {
    var t := AfterPoll(s, r);
    if TriesKill(s, r) && r.killWorks then t.(killed := true) else t
  }

  class Watchdog {
    var btcFailStreak: int
    var ckpoolKilled: bool

    constructor ()
      ensures Value() == START
    {
      btcFailStreak, ckpoolKilled := 0, false;
    }

    ghost function Value(): State
      reads this
    {
      State(btcFailStreak, ckpoolKilled)
    }

    method OnRefresh(r: Refresh) returns (tried: bool)
      modifies this
      ensures Value() == Next(old(Value()), r)
      ensures tried <==> TriesKill(old(Value()), r)
    {
      if r.nodeOk {
        btcFailStreak := 0;
        ckpoolKilled := false;
      } else {
        btcFailStreak := btcFailStreak + 1;
      }
      var submitGap := r.attempts - r.confirmed;
      tried := false;
      if btcFailStreak >= FAIL_THRESHOLD && !ckpoolKilled {
        if submitGap <= 0 {
          tried := true;
          if r.killWorks {
            ckpoolKilled := true;
          }
        }
      }
    }
  }

  // ---- every sequence of refreshes

  function Run(rs: seq<Refresh>): State {
    if rs == [] then START else Next(Run(rs[..|rs| - 1]), rs[|rs| - 1])
  }

  predicate KillsAt(rs: seq<Refresh>, i: nat)
    requires i < |rs|
  {
    TriesKill(Run(rs[..i]), rs[i]) && rs[i].killWorks
  }

  /** The streak counts the failures since the last success; `killed` remembers a kill since then. */
  lemma {:induction false} StateMeaning(rs: seq<Refresh>)
    ensures var s := Run(rs);
            && 0 <= s.failStreak <= |rs|
            && (forall k :: |rs| - s.failStreak <= k < |rs| ==> !rs[k].nodeOk)
            && (s.failStreak < |rs| ==> rs[|rs| - s.failStreak - 1].nodeOk)
    ensures Run(rs).killed <==> exists i :: |rs| - Run(rs).failStreak <= i < |rs| && KillsAt(rs, i)
  {
    if rs != [] {
      var n := |rs| - 1;
      var before := rs[..n];
      StateMeaning(before);
      assert rs[..n] == before;
      forall i | 0 <= i < n
        ensures KillsAt(rs, i) == KillsAt(before, i)
      {
        assert rs[..i] == before[..i];
      }
      if Run(rs).killed && !rs[n].nodeOk {
        if Run(before).killed {
          var i :| n - Run(before).failStreak <= i < n && KillsAt(before, i);
          assert KillsAt(rs, i);
        } else {
          assert KillsAt(rs, n);
        }
      }
    }
  }

  /** A kill follows three failed polls in a row, with no submission outstanding. */
  lemma KillNeedsThreeFailures(rs: seq<Refresh>, i: nat)
    requires i < |rs| && TriesKill(Run(rs[..i]), rs[i])
    ensures i >= 2 && !rs[i - 2].nodeOk && !rs[i - 1].nodeOk && !rs[i].nodeOk
    ensures rs[i].attempts <= rs[i].confirmed
  {
    StateMeaning(rs[..i]);
  }

  /** Between two successful kills the node answered, and then failed three times again. */
  lemma KillsAreSeparated(rs: seq<Refresh>, i: nat, j: nat)
    requires i < j < |rs| && KillsAt(rs, i) && KillsAt(rs, j)
    ensures exists m :: i < m <= j - 3 && rs[m].nodeOk
  {
    var before := rs[..j];
    StateMeaning(before);
    var streak := Run(before).failStreak;
    assert before[..i] == rs[..i];
    assert KillsAt(before, i);
    var m := j - streak - 1;
    assert i < j - streak;
    KillNeedsThreeFailures(rs, j);
    KillNeedsThreeFailures(rs, i);
    assert rs[m] == before[m];
  }

  /**
   * The exact condition over the polls: the last three failed, no submission is outstanding, and since
   * every earlier successful kill the node has answered.
   */
  lemma KillTriedIff(rs: seq<Refresh>, i: nat)
    requires i < |rs|
    ensures TriesKill(Run(rs[..i]), rs[i]) <==>
              && i >= 2 && !rs[i - 2].nodeOk && !rs[i - 1].nodeOk && !rs[i].nodeOk
              && rs[i].attempts <= rs[i].confirmed
              && forall k :: 0 <= k < i && KillsAt(rs, k) ==> exists m :: k < m < i && rs[m].nodeOk
  {
    StateMeaning(rs[..i]);
    KilledIff(rs, i);
    hide KillsAt;
    var streak := Run(rs[..i]).failStreak;
    assert forall k :: 0 <= k < i ==> rs[..i][k] == rs[k];
  }

  /** The flag says that a kill succeeded and the node has not answered since. */
  lemma KilledIff(rs: seq<Refresh>, i: nat)
    requires i <= |rs|
    ensures !Run(rs[..i]).killed <==>
              forall k :: 0 <= k < i && KillsAt(rs, k) ==> exists m :: k < m < i && rs[m].nodeOk
  {
    var before := rs[..i];
    var start := i - Run(before).failStreak;
    StateMeaning(before);
    KillsBefore(rs, i);
    assert forall k :: 0 <= k < i ==> before[k] == rs[k];
    hide Run;
    if Run(before).killed {
      var k :| start <= k < i && KillsAt(before, k);
      assert KillsAt(rs, k);
      assert forall m :: k < m < i ==> !before[m].nodeOk;
    } else {
      forall k | 0 <= k < i && KillsAt(rs, k)
        ensures exists m :: k < m < i && rs[m].nodeOk
      {
        assert KillsAt(before, k);
        KilledFails(rs, k);
        assert k < start;
        assert before[start - 1].nodeOk;
        assert rs[start - 1].nodeOk;
      }
    }
  }

  lemma KillsBefore(rs: seq<Refresh>, i: nat)
    requires i <= |rs|
    ensures forall k :: 0 <= k < i ==> KillsAt(rs[..i], k) == KillsAt(rs, k)
  {
    forall k | 0 <= k < i
      ensures KillsAt(rs[..i], k) == KillsAt(rs, k)
    {
      assert rs[..i][..k] == rs[..k];
    }
  }

  lemma KilledFails(rs: seq<Refresh>, k: nat)
    requires k < |rs| && KillsAt(rs, k)
    ensures !rs[k].nodeOk
  {
  }
}
