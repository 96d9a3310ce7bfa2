/**
 * Share events from ckpool log lines: the live path (tailer, channel, ingest) and the batch scans
 * over a whole log. Lines are already tokenised; difficulties are reals.
 */
module ShareLog {
  import opened Common

  /** A proof-of-work record; `payload` stands for the header, coinbase and branches it carries. */
  datatype Pow = Pow(sdiff: real, hash: string, payload: string)

  datatype Line =
    | PowLine(rec: Option<Pow>)      // None: the marker is there but the record does not decode
    | Accepted(diff: real, hash: string)
    | RejectedDiff(keyword: string)
    | RejectedInvalid(reason: string)
    | Latency(ms: Option<int>)       // None: the figure does not parse, here and below
    | Attempt(tried: Option<real>)   // the difficulty of a possible block solve
    | Solved(height: Option<int>)
    | Other

  datatype Event = PowEvent(rec: Pow) | Accept(diff: real, hash: string) | Reject(reason: string)

  function LowerCase(c: char): char {
    if 'A' <= c <= 'Z' then c - 'A' + 'a' else c
  }

  /** Keywords are ASCII words. */
  function ToLower(s: string): string {
    seq(|s|, i requires 0 <= i < |s| => LowerCase(s[i]))
  }

  function RejectKeyword(kw: string): string {
    if ToLower(kw) == "dupe" then "Duplicate" else if ToLower(kw) == "high" then "Above target" else kw
  }

  /** The event a line puts on the share channel. */
  function EventsOf(l: Line): seq<Event> {
    match l
    case PowLine(Some(rec)) => [PowEvent(rec)]
    case PowLine(None) => []
    case Accepted(d, h) => [Accept(d, h)]
    case RejectedDiff(kw) => [Reject(RejectKeyword(kw))]
    case RejectedInvalid(reason) => [Reject(reason)]
    case _ => []
  }

  function Events(lines: seq<Line>): seq<Event> {
    if lines == [] then [] else Events(lines[..|lines| - 1]) + EventsOf(lines[|lines| - 1])
  }

  // ---- tallies

  /** Accepted and rejected shares: reasons, six difficulty buckets, accepted count and difficulty sum. */
  datatype Tally = Tally(reasons: map<string, int>, dist: seq<int>, count: int, sum: real)

  const EMPTY := Tally(map[], [0, 0, 0, 0, 0, 0], 0, 0.0)

  /** Upper bounds of the first five buckets. */
  const BOUNDS: seq<real> := [1e6, 1e8, 1e9, 1e11, 1e12]

  function Bucket(d: real): (b: int)
    ensures 0 <= b < 6
    ensures b > 0 ==> BOUNDS[b - 1] <= d
    ensures b < 5 ==> d < BOUNDS[b]
  {
    if d < 1e6 then 0 else if d < 1e8 then 1 else if d < 1e9 then 2
    else if d < 1e11 then 3 else if d < 1e12 then 4 else 5
  }

  function Bump(m: map<string, int>, key: string): map<string, int> {
    m[key := (if key in m then m[key] else 0) + 1]
  }

  function Named(reason: string): string {
    if reason == "" then "Unknown" else reason
  }

  function Count(dist: seq<int>, d: real): (r: seq<int>)
    requires |dist| == 6
    ensures |r| == 6
  {
    dist[Bucket(d) := dist[Bucket(d)] + 1]
  }

  function AddAccept(t: Tally, d: real): Tally
    requires |t.dist| == 6
  {
    t.(dist := Count(t.dist, d), count := t.count + 1, sum := t.sum + d)
  }

  function AddReject(t: Tally, reason: string): Tally {
    t.(reasons := Bump(t.reasons, Named(reason)))
  }

  /** The histogram accounts for every accepted share. */
  predicate Conserved(t: Tally) {
    && |t.dist| == 6 && (forall i :: 0 <= i < 6 ==> t.dist[i] >= 0)
    && t.dist[0] + t.dist[1] + t.dist[2] + t.dist[3] + t.dist[4] + t.dist[5] == t.count
  }

  // ---- live ingest

  const PENDING_LIMIT := 16

  datatype Live = Live(session: Tally, alltime: Tally, pending: map<string, Pow>, best: Option<Pow>)

  const FRESH := Live(EMPTY, EMPTY, map[], None)

  function Park(pending: map<string, Pow>, rec: Pow): map<string, Pow> {
    (if |pending| >= PENDING_LIMIT then map[] else pending)[rec.hash := rec]
  }

  function Better(best: Option<Pow>, rec: Pow): Option<Pow> {
    if best.None? || rec.sdiff > best.value.sdiff then Some(rec) else best
  }

  function Ingest(a: Live, e: Event): Live
    requires |a.session.dist| == |a.alltime.dist| == 6
  {
    match e
    case PowEvent(rec) => a.(pending := Park(a.pending, rec))
    case Reject(reason) => a.(session := AddReject(a.session, reason), alltime := AddReject(a.alltime, reason))
    case Accept(d, h) =>
      var b := a.(session := AddAccept(a.session, d), alltime := AddAccept(a.alltime, d));
      if h in a.pending then b.(pending := a.pending - {h}, best := Better(a.best, a.pending[h])) else b
  }

  function IngestAll(a: Live, es: seq<Event>): (r: Live)
    requires |a.session.dist| == |a.alltime.dist| == 6
    ensures |r.session.dist| == |r.alltime.dist| == 6
  {
    if es == [] then a else Ingest(IngestAll(a, es[..|es| - 1]), es[|es| - 1])
  }

  lemma IngestAllSnoc(a: Live, es: seq<Event>, e: Event)
    requires |a.session.dist| == |a.alltime.dist| == 6
    ensures IngestAll(a, es + [e]) == Ingest(IngestAll(a, es), e)
  {
    assert (es + [e])[..|es|] == es;
  }

  // ---- the batch recount

  function Histogram(diffs: seq<real>): (dist: seq<int>)
    ensures |dist| == 6
  {
    if diffs == [] then [0, 0, 0, 0, 0, 0] else Count(Histogram(diffs[..|diffs| - 1]), diffs[|diffs| - 1])
  }

  /** The keyword of a rejection with difficulty is a word, hence not empty. */
  predicate WellFormed(lines: seq<Line>) {
    forall i :: 0 <= i < |lines| && lines[i].RejectedDiff? ==> lines[i].keyword != ""
  }

  function ScanStep(t: Tally, l: Line): (r: Tally)
    requires |t.dist| == 6
    ensures |r.dist| == 6
  {
    match l
    case Accepted(d, _) => AddAccept(t, d)
    case RejectedDiff(kw) => t.(reasons := Bump(t.reasons, RejectKeyword(kw)))
    case RejectedInvalid(reason) => t.(reasons := Bump(t.reasons, Named(reason)))
    case _ => t
  }

  /** What a whole log says about its shares. */
  function Scan(lines: seq<Line>): (t: Tally)
    ensures |t.dist| == 6
  {
    if lines == [] then EMPTY else ScanStep(Scan(lines[..|lines| - 1]), lines[|lines| - 1])
  }

  lemma ScanSnoc(lines: seq<Line>, l: Line)
    ensures Scan(lines + [l]) == ScanStep(Scan(lines), l)
  {
    assert (lines + [l])[..|lines|] == lines;
  }

  method ScanShareStats(lines: seq<Line>)
    returns (accepted: int, sum: real, diffs: seq<real>, reasons: map<string, int>)
    ensures Tally(reasons, Histogram(diffs), accepted, sum) == Scan(lines)
  {
    accepted, sum, diffs, reasons := 0, 0.0, [], map[];
    for i := 0 to |lines|
      invariant Tally(reasons, Histogram(diffs), accepted, sum) == Scan(lines[..i])
    {
      assert lines[..i + 1] == lines[..i] + [lines[i]];
      ScanSnoc(lines[..i], lines[i]);
      match lines[i]
      case Accepted(d, _) =>
        HistogramSnoc(diffs, d);
        accepted, sum, diffs := accepted + 1, sum + d, diffs + [d];
      case RejectedDiff(kw) =>
        reasons := Bump(reasons, RejectKeyword(kw));
      case RejectedInvalid(reason) =>
        reasons := Bump(reasons, if reason == "" then "Unknown" else reason);
      case _ =>
    }
    assert lines[..|lines|] == lines;
  }

  lemma HistogramSnoc(diffs: seq<real>, d: real)
    ensures Histogram(diffs + [d]) == Count(Histogram(diffs), d)
  {
    assert (diffs + [d])[..|diffs|] == diffs;
  }

  lemma {:induction false} ScanConserves(lines: seq<Line>)
    ensures Conserved(Scan(lines))
  {
    if lines != [] {
      ScanConserves(lines[..|lines| - 1]);
    }
  }

  /** Tailer, channel and ingest on one line. */
  function IngestLine(a: Live, l: Line): Live
    requires |a.session.dist| == |a.alltime.dist| == 6
  {
    if EventsOf(l) == [] then a else Ingest(a, EventsOf(l)[0])
  }

  lemma EventsIngest(a: Live, lines: seq<Line>, l: Line)
    requires |a.session.dist| == |a.alltime.dist| == 6
    ensures IngestAll(a, Events(lines + [l])) == IngestLine(IngestAll(a, Events(lines)), l)
  {
    assert (lines + [l])[..|lines|] == lines;
    hide Ingest;
    if EventsOf(l) == [] {
      assert Events(lines) + [] == Events(lines);
    } else {
      assert EventsOf(l) == [EventsOf(l)[0]];
      IngestAllSnoc(a, Events(lines), EventsOf(l)[0]);
    }
  }

  lemma LineAgrees(a: Live, t: Tally, l: Line)
    requires a.session == a.alltime == t && |t.dist| == 6 && WellFormed([l])
    ensures IngestLine(a, l).session == IngestLine(a, l).alltime == ScanStep(t, l)
  {
    assert [l][0] == l;
    hide Count, Bump, Bucket, Park, Better;
  }

  /** Live ingest from zero and a recount of the same log agree: counts, sums, buckets and reasons. */
  lemma {:induction false} LiveEqualsScan(lines: seq<Line>)
    requires WellFormed(lines)
    ensures IngestAll(FRESH, Events(lines)).alltime == Scan(lines)
    ensures IngestAll(FRESH, Events(lines)).session == Scan(lines)
  {
    if lines != [] {
      var n := |lines| - 1;
      LiveEqualsScan(lines[..n]);
      assert lines == lines[..n] + [lines[n]];
      EventsIngest(FRESH, lines[..n], lines[n]);
      ScanSnoc(lines[..n], lines[n]);
      LineAgrees(IngestAll(FRESH, Events(lines[..n])), Scan(lines[..n]), lines[n]);
      hide IngestAll, Scan, IngestLine, ScanStep;
    }
  }

  // ---- what the tally of a log means, line by line from the front

  /** The reason a line is counted under, if it is a rejection. Keywords are compared without case. */
  function ReasonOf(l: Line): Option<string> {
    match l
    case RejectedDiff(kw) => Some(if ToLower(kw) == "dupe" then "Duplicate" else if ToLower(kw) == "high" then "Above target" else kw)
    case RejectedInvalid(reason) => Some(if reason == "" then "Unknown" else reason)
    case _ => None
  }

  function LinesFor(lines: seq<Line>, reason: string): nat {
    if lines == [] then 0 else (if ReasonOf(lines[0]) == Some(reason) then 1 else 0) + LinesFor(lines[1..], reason)
  }

  function AcceptedDiffs(lines: seq<Line>): seq<real> {
    if lines == [] then [] else (if lines[0].Accepted? then [lines[0].diff] else []) + AcceptedDiffs(lines[1..])
  }

  function Total(ds: seq<real>): real {
    if ds == [] then 0.0 else ds[0] + Total(ds[1..])
  }

  /** How many lie in an interval; a bound of None is open. */
  function HowMany(ds: seq<real>, low: Option<real>, high: Option<real>): nat {
    if ds == [] then 0 else
      (if (low.Some? ==> low.value <= ds[0]) && (high.Some? ==> ds[0] < high.value) then 1 else 0) + HowMany(ds[1..], low, high)
  }

  /** The buckets of some difficulties. */
  function Buckets(ds: seq<real>): (b: seq<int>)
    ensures |b| == 6
  {
    [HowMany(ds, None, Some(1e6)), HowMany(ds, Some(1e6), Some(1e8)), HowMany(ds, Some(1e8), Some(1e9)),
     HowMany(ds, Some(1e9), Some(1e11)), HowMany(ds, Some(1e11), Some(1e12)), HowMany(ds, Some(1e12), None)]
  }

  function CountIn(m: map<string, int>, reason: string): int {
    if reason in m then m[reason] else 0
  }

  lemma {:induction false} LinesForSnoc(lines: seq<Line>, l: Line, reason: string)
    ensures LinesFor(lines + [l], reason) == LinesFor(lines, reason) + if ReasonOf(l) == Some(reason) then 1 else 0
  {
    hide ReasonOf;
    if lines != [] {
      assert (lines + [l])[1..] == lines[1..] + [l];
      LinesForSnoc(lines[1..], l, reason);
    } else {
      assert lines + [l] == [l] && [l][1..] == [];
    }
  }

  lemma {:induction false} AcceptedDiffsSnoc(lines: seq<Line>, l: Line)
    ensures AcceptedDiffs(lines + [l]) == AcceptedDiffs(lines) + if l.Accepted? then [l.diff] else []
  {
    if lines != [] {
      assert (lines + [l])[1..] == lines[1..] + [l];
      AcceptedDiffsSnoc(lines[1..], l);
    } else {
      assert lines + [l] == [l] && [l][1..] == [];
    }
  }

  lemma {:induction false} TotalSnoc(ds: seq<real>, d: real)
    ensures Total(ds + [d]) == Total(ds) + d
  {
    if ds != [] {
      assert (ds + [d])[1..] == ds[1..] + [d];
      TotalSnoc(ds[1..], d);
    }
  }

  lemma {:induction false} HowManySnoc(ds: seq<real>, d: real, low: Option<real>, high: Option<real>)
    ensures HowMany(ds + [d], low, high)
            == HowMany(ds, low, high) + if (low.Some? ==> low.value <= d) && (high.Some? ==> d < high.value) then 1 else 0
  {
    if ds != [] {
      assert (ds + [d])[1..] == ds[1..] + [d];
      HowManySnoc(ds[1..], d, low, high);
    } else {
      assert ds + [d] == [d] && [d][1..] == [];
    }
  }

  /** A reason's count is the number of lines rejected for it, and no other reason is listed. */
  lemma {:induction false} ReasonsCountLines(lines: seq<Line>, reason: string)
    ensures CountIn(Scan(lines).reasons, reason) == LinesFor(lines, reason)
    ensures reason in Scan(lines).reasons <==> LinesFor(lines, reason) > 0
  {
    if lines != [] {
      var n := |lines| - 1;
      ReasonsCountLines(lines[..n], reason);
      assert lines == lines[..n] + [lines[n]];
      ScanSnoc(lines[..n], lines[n]);
      LinesForSnoc(lines[..n], lines[n], reason);
      hide Scan, LinesFor, AddAccept, ToLower;
    }
  }

  /** Count, sum and the six buckets are those of the accepted difficulties in the log. */
  lemma {:induction false} TallyCountsDiffs(lines: seq<Line>)
    ensures var t, ds := Scan(lines), AcceptedDiffs(lines);
            && t.count == |ds| && t.sum == Total(ds)
            && t.dist == Buckets(ds)
  {
    if lines != [] {
      var n := |lines| - 1;
      var l, ds := lines[n], AcceptedDiffs(lines[..n]);
      TallyCountsDiffs(lines[..n]);
      assert lines == lines[..n] + [l];
      ScanSnoc(lines[..n], l);
      AcceptedDiffsSnoc(lines[..n], l);
      hide Scan, AcceptedDiffs, Total, Buckets, Bump;
      if l.Accepted? {
        TotalSnoc(ds, l.diff);
        BucketsSnoc(ds, l.diff);
      } else {
        assert ds + [] == ds;
      }
    }
  }

  lemma BucketsSnoc(ds: seq<real>, d: real)
    ensures Buckets(ds + [d]) == Count(Buckets(ds), d)
  {
    HowManySnoc(ds, d, None, Some(1e6));
    HowManySnoc(ds, d, Some(1e6), Some(1e8));
    HowManySnoc(ds, d, Some(1e8), Some(1e9));
    HowManySnoc(ds, d, Some(1e9), Some(1e11));
    HowManySnoc(ds, d, Some(1e11), Some(1e12));
    HowManySnoc(ds, d, Some(1e12), None);
    hide HowMany;
  }

  // ---- tallies add up

  /** One event in a tally; a record of proof of work does not count. */
  function Tallied(t: Tally, e: Event): (r: Tally)
    requires |t.dist| == 6
    ensures |r.dist| == 6
  {
    match e
    case PowEvent(_) => t
    case Accept(d, _) => AddAccept(t, d)
    case Reject(reason) => AddReject(t, reason)
  }

  function TallyAll(t: Tally, es: seq<Event>): (r: Tally)
    requires |t.dist| == 6
    ensures |r.dist| == 6
  {
    if es == [] then t else Tallied(TallyAll(t, es[..|es| - 1]), es[|es| - 1])
  }

  /** Counting on from a tally gives that tally and the one of the new events together. */
  lemma {:induction false} TalliesAdd(t: Tally, es: seq<Event>)
    requires |t.dist| == 6
    ensures var r, d := TallyAll(t, es), TallyAll(EMPTY, es);
            && r.count == t.count + d.count && r.sum == t.sum + d.sum
            && (forall i :: 0 <= i < 6 ==> r.dist[i] == t.dist[i] + d.dist[i])
            && forall k :: CountIn(r.reasons, k) == CountIn(t.reasons, k) + CountIn(d.reasons, k)
  {
    if es != [] {
      TalliesAdd(t, es[..|es| - 1]);
      hide Bucket;
    }
  }
}
