/** The tailer's line handler with its channels; tailer and share ingest under every schedule. */
module SharePipeline {
  import opened Common
  import opened ShareLog
  import opened PowRecords

  const CHANNEL_CAPACITY := 64

  /** `dropped` and `taken` record what became of every event; the program keeps neither. */
  datatype Pipe = Pipe(queue: seq<Event>, live: Live, read: seq<Line>, taken: seq<Event>, dropped: seq<Event>)

  datatype Step = Read(line: Line) | Receive

  const START := Pipe([], FRESH, [], [], [])

  const OTHER_CAPACITY := 16

  datatype BlockEvent = BlockEvent(height: int, shareDiff: real)

  /** The difficulty remembered after a line: of the last possible solve, until a solve has used it. */
  function Remember(before: real, l: Line): real {
    match l
    case Attempt(Some(d)) => d
    case Solved(Some(_)) => 0.0
    case _ => before
  }

  function RememberAll(lines: seq<Line>): real {
    if lines == [] then 0.0 else Remember(RememberAll(lines[..|lines| - 1]), lines[|lines| - 1])
  }

  predicate SetsDiff(l: Line) {
    (l.Attempt? && l.tried.Some?) || (l.Solved? && l.height.Some?)
  }

  /** A solve is given the difficulty of the last possible solve logged since the solve before it, and 0 without one. */
  lemma {:induction false} SolveTakesLastAttempt(lines: seq<Line>, i: int)
    requires -1 <= i < |lines| && (i >= 0 ==> SetsDiff(lines[i]))
    requires forall k :: i < k < |lines| ==> !SetsDiff(lines[k])
    ensures RememberAll(lines) == if i >= 0 && lines[i].Attempt? then lines[i].tried.value else 0.0
  {
    if lines != [] && i < |lines| - 1 {
      SolveTakesLastAttempt(lines[..|lines| - 1], i);
    }
  }

  class Tailer {
    var shares: seq<Event>
    var events: seq<BlockEvent>
    var attempts: seq<real>
    var latencies: seq<int>
    var lastSolveDiff: real

    constructor ()
      ensures shares == [] && events == [] && attempts == [] && latencies == [] && lastSolveDiff == 0.0
    {
      shares, events, attempts, latencies, lastSolveDiff := [], [], [], [], 0.0;
    }

    /** Non-blocking: an event that finds its channel full is lost. `lost` reports that of share events. */
    method HandleLine(line: Line) returns (lost: bool)
      modifies this
      ensures lost <==> EventsOf(line) != [] && |old(shares)| >= 64
      ensures shares == if lost then old(shares) else old(shares) + EventsOf(line)
      ensures latencies == if line.Latency? && line.ms.Some? && |old(latencies)| < 16
                           then old(latencies) + [line.ms.value] else old(latencies)
      ensures attempts == if line.Attempt? && |old(attempts)| < 16
                          then old(attempts) + [line.tried.Or(0.0)] else old(attempts)
      ensures events == if line.Solved? && line.height.Some? && |old(events)| < 16
                        then old(events) + [BlockEvent(line.height.value, old(lastSolveDiff))] else old(events)
      ensures lastSolveDiff == Remember(old(lastSolveDiff), line)
    {
      lost := false;
      match line
      case PowLine(rec) =>
        if rec.Some? {
          lost := Send(PowEvent(rec.value));
        }
      case Accepted(d, h) => lost := Send(Accept(d, h));
      case RejectedDiff(kw) => lost := Send(Reject(RejectKeyword(kw)));
      case RejectedInvalid(reason) => lost := Send(Reject(reason));
      case Latency(ms) =>
        if ms.Some? && |latencies| < OTHER_CAPACITY {
          latencies := latencies + [ms.value];
        }
      case Attempt(tried) =>
        var d := 0.0;
        if tried.Some? {
          d := tried.value;
          lastSolveDiff := tried.value;
        }
        if |attempts| < OTHER_CAPACITY {
          attempts := attempts + [d];
        }
      case Solved(height) =>
        if height.Some? {
          var ev := BlockEvent(height.value, lastSolveDiff);
          lastSolveDiff := 0.0;
          if |events| < OTHER_CAPACITY {
            events := events + [ev];
          }
        }
      case Other =>
    }

    method Send(e: Event) returns (lost: bool)
      modifies this`shares
      ensures lost <==> |old(shares)| >= CHANNEL_CAPACITY
      ensures shares == if lost then old(shares) else old(shares) + [e]
    {
      lost := |shares| >= CHANNEL_CAPACITY;
      if !lost {
        shares := shares + [e];
      }
    }
  }

  ghost predicate Sound(p: Pipe) {
    |p.live.session.dist| == |p.live.alltime.dist| == 6
  }

  ghost function Next(p: Pipe, s: Step): (q: Pipe)
    requires Sound(p)
    ensures Sound(q)
  {
    match s
    case Read(l) =>
      var q := p.(read := p.read + [l]);
      if EventsOf(l) == [] then q
      else if |p.queue| >= CHANNEL_CAPACITY then q.(dropped := p.dropped + EventsOf(l))
      else q.(queue := p.queue + EventsOf(l))
    case Receive =>
      if p.queue == [] then p else
        p.(queue := p.queue[1..], live := Ingest(p.live, p.queue[0]), taken := p.taken + [p.queue[0]])
  }

  ghost function Run(steps: seq<Step>): (p: Pipe)
    ensures Sound(p)
  {
    if steps == [] then START else Next(Run(steps[..|steps| - 1]), steps[|steps| - 1])
  }

  /** Accepted shares among events. */
  function Accepts(es: seq<Event>): nat {
    if es == [] then 0 else Accepts(es[..|es| - 1]) + if es[|es| - 1].Accept? then 1 else 0
  }

  lemma {:induction false} AcceptsJoin(x: seq<Event>, y: seq<Event>)
    ensures Accepts(x + y) == Accepts(x) + Accepts(y)
  {
    if y == [] {
      assert x + y == x;
    } else {
      assert (x + y)[..|x + y| - 1] == x + y[..|y| - 1];
      AcceptsJoin(x, y[..|y| - 1]);
    }
  }

  /** Every event is taken, waiting or lost; what was taken is what was ingested; order is kept. */
  ghost predicate Accounted(p: Pipe) {
    && |p.queue| <= 64
    && p.live == IngestAll(FRESH, p.taken)
    && Accepts(Events(p.read)) == Accepts(p.taken) + Accepts(p.queue) + Accepts(p.dropped)
    && (p.dropped == [] ==> Events(p.read) == p.taken + p.queue)
    && Subsequence(p.taken + p.queue, Events(p.read))
  }

  lemma EventsSnoc(lines: seq<Line>, l: Line)
    ensures Events(lines + [l]) == Events(lines) + EventsOf(l)
  {
    assert (lines + [l])[..|lines|] == lines;
  }

  lemma OneEvent(l: Line)
    ensures |EventsOf(l)| <= 1 && Accepts([]) == 0
  {
  }

  lemma ReadKeepsAccount(p: Pipe, l: Line)
    requires Sound(p) && Accounted(p)
    ensures Accounted(Next(p, Read(l)))
  {
    OneEvent(l);
    EventsSnoc(p.read, l);
    hide Accepts, Events, IngestAll, EventsOf, Subsequence;
    var es := EventsOf(l);
    AcceptsJoin(Events(p.read), es);
    if es == [] {
      assert Events(p.read) + es == Events(p.read);
    } else if |p.queue| >= CHANNEL_CAPACITY {
      AcceptsJoin(p.dropped, es);
      SubsequenceGrows(p.taken + p.queue, Events(p.read), es[0]);
      assert es == [es[0]];
    } else {
      AcceptsJoin(p.queue, es);
      SubsequenceGrows(p.taken + p.queue, Events(p.read), es[0]);
      assert es == [es[0]];
      assert p.taken + (p.queue + es) == p.taken + p.queue + es;
    }
  }

  lemma ReceiveKeepsAccount(p: Pipe)
    requires Sound(p) && Accounted(p) && p.queue != []
    ensures Accounted(Next(p, Receive))
  {
    hide Accepts, Events, IngestAll, Ingest, Subsequence;
    var e, rest := p.queue[0], p.queue[1..];
    assert p.queue == [e] + rest;
    AcceptsJoin([e], rest);
    AcceptsJoin(p.taken, [e]);
    IngestAllSnoc(FRESH, p.taken, e);
    assert p.taken + ([e] + rest) == p.taken + [e] + rest;
  }

  /** An event is lost exactly when 64 are waiting already. */
  lemma ReadLosesIff(p: Pipe, l: Line)
    requires Sound(p)
    ensures var q := Next(p, Read(l));
            if EventsOf(l) != [] && |p.queue| >= 64 then q.dropped == p.dropped + EventsOf(l) && q.queue == p.queue
            else q.dropped == p.dropped && q.queue == p.queue + EventsOf(l)
  {
    hide EventsOf;
    assert p.queue + [] == p.queue;
  }

  lemma {:induction false} RunsAccount(steps: seq<Step>)
    ensures Accounted(Run(steps))
  {
    if steps != [] {
      var n := |steps| - 1;
      RunsAccount(steps[..n]);
      var p := Run(steps[..n]);
      match steps[n]
      case Read(l) => ReadKeepsAccount(p, l);
      case Receive => if p.queue != [] { ReceiveKeepsAccount(p); }
    } else {
      assert START.taken + START.queue == [];
    }
  }

  lemma {:induction false} CountIsAccepts(es: seq<Event>)
    ensures IngestAll(FRESH, es).alltime.count == Accepts(es)
  {
    if es != [] {
      CountIsAccepts(es[..|es| - 1]);
    }
  }

  /** Once the channel is drained with nothing lost, the live figures are those of the log. */
  lemma DrainedPipelineEqualsLog(steps: seq<Step>)
    requires Run(steps).dropped == [] && Run(steps).queue == [] && WellFormed(Run(steps).read)
    ensures var p := Run(steps);
            && p.live.alltime == p.live.session == Scan(p.read)
            && p.live.best == Pair(p.read).best
  {
    RunsAccount(steps);
    var p := Run(steps);
    assert p.taken + p.queue == p.taken;
    LiveEqualsScan(p.read);
    LivePairingEqualsScan(p.read);
  }

  /** Under any schedule the live count falls short of the log by exactly what waits and what was lost. */
  lemma LiveCountShortfall(steps: seq<Step>)
    requires WellFormed(Run(steps).read)
    ensures var p := Run(steps);
            p.live.alltime.count + Accepts(p.queue) + Accepts(p.dropped) == Scan(p.read).count
  {
    RunsAccount(steps);
    var p := Run(steps);
    CountIsAccepts(p.taken);
    LiveEqualsScan(p.read);
    CountIsAccepts(Events(p.read));
  }
}
