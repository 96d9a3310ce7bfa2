/** Fan-out of snapshots to WebSocket clients through bounded queues. */
module WsHub {
  import opened Common

  type Payload = string

  const QUEUE_CAPACITY := 8
  const MAX_DROP_MISSES := 6

  /** The value of a client: its send queue, whether that is closed, and the hub's drop counter. */
  datatype Client = Client(queue: seq<Payload>, closed: bool, connClosed: bool, misses: nat)

  const JOINED := Client([], false, false, 0)

  /** A non-blocking send on an open queue. */
  function Offer(c: Client, p: Payload): Client {
    if |c.queue| < QUEUE_CAPACITY then c.(queue := c.queue + [p]) else c
  }

  /** One broadcast as one client sees it. */
  function Broadcasted(c: Client, p: Payload): Client {
    if |c.queue| < QUEUE_CAPACITY then c.(queue := c.queue + [p], misses := 0)
    else c.(misses := c.misses + 1, connClosed := c.connClosed || c.misses + 1 >= MAX_DROP_MISSES)
  }

  class WsClient {
    var queue: seq<Payload>
    var closed: bool
    var connClosed: bool
    var dropMisses: nat

    constructor ()
      ensures Value() == JOINED
    {
      queue, closed, connClosed, dropMisses := [], false, false, 0;
    }

    ghost function Value(): Client
      reads this
    {
      Client(queue, closed, connClosed, dropMisses)
    }

    /** `select { case c.send <- p: default: }`; sending on a closed queue would panic. */
    method TrySend(p: Payload) returns (sent: bool)
      requires !closed
      modifies this`queue
      ensures sent <==> |old(queue)| < QUEUE_CAPACITY
      ensures Value() == Offer(old(Value()), p)
    {
      sent := |queue| < QUEUE_CAPACITY;
      if sent {
        queue := queue + [p];
      }
    }

    /** One broadcast: a full queue is a miss, and a starved client has missed too many. */
    method Receive(p: Payload) returns (starved: bool)
      requires !closed
      modifies this`queue, this`dropMisses
      ensures starved <==> |old(queue)| >= QUEUE_CAPACITY && old(dropMisses) + 1 >= MAX_DROP_MISSES
      ensures Value() == Broadcasted(old(Value()), p).(connClosed := old(connClosed))
    {
      starved := false;
      var sent := TrySend(p);
      if sent {
        dropMisses := 0;
      } else {
        dropMisses := dropMisses + 1;
        starved := dropMisses >= MAX_DROP_MISSES;
      }
    }

    /** Closing twice would panic. */
    method Close()
      requires !closed
      modifies this`closed
      ensures Value() == old(Value()).(closed := true)
    {
      closed := true;
    }
  }

  class Hub {
    var clients: set<WsClient>

    constructor ()
      ensures clients == {}
    {
      clients := {};
    }

    /** Queues of registered clients are open. */
    ghost predicate Valid()
      reads this, clients
    {
      forall c :: c in clients ==> !c.closed
    }

    method Add(c: WsClient)
      requires Valid() && !c.closed
      modifies this
      ensures Valid() && clients == old(clients) + {c}
    {
      clients := clients + {c};
    }

    method Remove(c: WsClient)
      requires Valid()
      modifies this, c`closed
      ensures Valid() && clients == old(clients) - {c}
      ensures c.Value() == if c in old(clients) then old(c.Value()).(closed := true) else old(c.Value())
    {
      if c in clients {
        clients := clients - {c};
        c.Close();
      }
    }

    method Broadcast(p: Payload)
      requires Valid()
      modifies clients
      ensures Valid() && clients == old(clients)
      ensures forall c :: c in clients ==> c.Value() == Broadcasted(old(c.Value()), p)
    {
      var toClose := OfferAll(p);
      label offered:
      var left := toClose;
      while left != {}
        invariant left <= toClose
        invariant forall c :: c in clients ==>
                    c.Value() == if c in toClose - left then old@offered(c.Value()).(connClosed := true) else old@offered(c.Value())
        decreases |left|
      {
        var c :| c in left;
        c.connClosed := true;
        left := left - {c};
      }
    }

    /** The part under the lock; returns the clients that have missed too many broadcasts. */
    method OfferAll(p: Payload) returns (toClose: set<WsClient>)
      requires Valid()
      modifies clients
      ensures clients == old(clients) && toClose <= clients
      ensures forall c :: c in clients ==>
                && (c in toClose <==> |old(c.queue)| >= QUEUE_CAPACITY && old(c.dropMisses) + 1 >= MAX_DROP_MISSES)
                && c.Value() == Broadcasted(old(c.Value()), p).(connClosed := old(c.connClosed))
    {
      toClose := {};
      var left := clients;
      while left != {}
        invariant left <= clients && toClose <= clients - left
        invariant forall c :: c in left ==> c.Value() == old(c.Value())
        invariant forall c :: c in clients - left ==>
                    && (c in toClose <==> |old(c.queue)| >= QUEUE_CAPACITY && old(c.dropMisses) + 1 >= MAX_DROP_MISSES)
                    && c.Value() == Broadcasted(old(c.Value()), p).(connClosed := old(c.connClosed))
        decreases |left|
      {
        var c :| c in left;
        var starved := c.Receive(p);
        if starved {
          toClose := toClose + {c};
        }
        left := left - {c};
      }
    }
  }

  // ---- every interleaving of the handler, the hub, the writer and the reader

  /**
   * One connection. `started`: the handler has done its initial push and started the goroutines.
   * The last five fields record its history: payloads offered, queued and taken by the writer,
   * the outcome of each broadcast, and how often the queue was closed.
   */
  datatype Session = Session(c: Client, inHub: bool, started: bool,
                             offered: seq<Payload>, queued: seq<Payload>, taken: seq<Payload>,
                             outcomes: seq<bool>, closes: nat, sentClosed: bool)

  datatype Step =
    | Connect(id: int)
    | InitialPush(id: int, p: Payload)
    | InitialSkip(id: int)  // the snapshot did not serialize
    | Publish(p: Payload)
    | WriterTakes(id: int)
    | ReaderEnds(id: int)

  type Sessions = map<int, Session>

  const NEW := Session(JOINED, true, false, [], [], [], [], 0, false)

  function Pushed(s: Session, p: Payload): Session {
    var s := s.(offered := s.offered + [p], sentClosed := s.sentClosed || s.c.closed);
    if |s.c.queue| < QUEUE_CAPACITY then s.(queued := s.queued + [p]) else s
  }

  function AfterInitialPush(s: Session, p: Payload): Session {
    Pushed(s, p).(c := Offer(s.c, p), started := true)
  }

  function AfterPublish(s: Session, p: Payload): Session {
    if !s.inHub then s else
      Pushed(s, p).(c := Broadcasted(s.c, p), outcomes := s.outcomes + [|s.c.queue| < QUEUE_CAPACITY])
  }

  function AfterTake(s: Session): Session {
    if s.c.queue == [] then s else
      s.(c := s.c.(queue := s.c.queue[1..]), taken := s.taken + [s.c.queue[0]])
  }

  /** The reader goroutine ends once and removes its client. */
  function AfterRemove(s: Session): Session {
    if !s.inHub then s else s.(inHub := false, c := s.c.(closed := true), closes := s.closes + 1)
  }

  function Next(ss: Sessions, e: Step): Sessions {
    match e
    case Connect(id) => if id in ss then ss else ss[id := NEW]
    case InitialPush(id, p) => if id in ss && !ss[id].started then ss[id := AfterInitialPush(ss[id], p)] else ss
    case InitialSkip(id) => if id in ss then ss[id := ss[id].(started := true)] else ss
    case Publish(p) => map id | id in ss :: AfterPublish(ss[id], p)
    case WriterTakes(id) => if id in ss && ss[id].started then ss[id := AfterTake(ss[id])] else ss
    case ReaderEnds(id) => if id in ss && ss[id].started then ss[id := AfterRemove(ss[id])] else ss
  }

  function Run(steps: seq<Step>): Sessions {
    if steps == [] then map[] else Next(Run(steps[..|steps| - 1]), steps[|steps| - 1])
  }

  /** Length of the final stretch of broadcasts that found the queue full. */
  function TrailingMisses(outcomes: seq<bool>): nat {
    if outcomes == [] || outcomes[|outcomes| - 1] then 0 else 1 + TrailingMisses(outcomes[..|outcomes| - 1])
  }

  /** The six broadcasts before position `k` all found the queue full. */
  predicate MissedSix(outcomes: seq<bool>, k: int) {
    6 <= k <= |outcomes| && forall i :: k - 6 <= i < k ==> !outcomes[i]
  }

  ghost predicate StarvedOnce(outcomes: seq<bool>) {
    exists k :: MissedSix(outcomes, k)
  }

  ghost predicate Good(s: Session) {
    && |s.c.queue| <= 8
    && !s.sentClosed
    && s.c.closed == !s.inHub && s.closes == (if s.inHub then 0 else 1)
    && (!s.started ==> s.inHub)
    && s.taken + s.c.queue == s.queued
    && Subsequence(s.queued, s.offered)
    && s.c.misses == TrailingMisses(s.outcomes)
    && (s.c.connClosed <==> StarvedOnce(s.outcomes))
  }

  lemma {:induction false} MissesAreMisses(outcomes: seq<bool>, i: nat)
    requires |outcomes| - TrailingMisses(outcomes) <= i < |outcomes|
    ensures !outcomes[i]
  {
    if i < |outcomes| - 1 {
      MissesAreMisses(outcomes[..|outcomes| - 1], i);
    }
  }

  lemma {:induction false} TrailingAtLeast(outcomes: seq<bool>, m: nat)
    requires m <= |outcomes| && forall i :: |outcomes| - m <= i < |outcomes| ==> !outcomes[i]
    ensures TrailingMisses(outcomes) >= m
  {
    if m > 0 {
      TrailingAtLeast(outcomes[..|outcomes| - 1], m - 1);
    }
  }

  lemma TrailingBound(outcomes: seq<bool>)
    ensures TrailingMisses(outcomes) <= |outcomes|
  {
  }

  /** A starvation is either old or complete with the last broadcast. */
  lemma StarvedStep(outcomes: seq<bool>, b: bool)
    ensures StarvedOnce(outcomes + [b]) <==>
              StarvedOnce(outcomes) || TrailingMisses(outcomes + [b]) >= MAX_DROP_MISSES
  {
    var all := outcomes + [b];
    if k :| MissedSix(outcomes, k) {
      assert MissedSix(all, k);
    }
    if TrailingMisses(all) >= MAX_DROP_MISSES {
      TrailingBound(all);
      forall i | |all| - MAX_DROP_MISSES <= i < |all|
        ensures !all[i]
      {
        MissesAreMisses(all, i);
      }
      assert MissedSix(all, |all|);
    }
    if k :| MissedSix(all, k) {
      if k <= |outcomes| {
        assert MissedSix(outcomes, k);
      } else {
        TrailingAtLeast(all, MAX_DROP_MISSES);
      }
    }
  }

  lemma PushKeepsGood(s: Session, p: Payload)
    requires Good(s) && s.inHub
    ensures Good(AfterInitialPush(s, p))
  {
    SubsequenceGrows(s.queued, s.offered, p);
    assert s.taken + (s.c.queue + [p]) == s.taken + s.c.queue + [p];
    hide Subsequence, TrailingMisses, StarvedOnce;
  }

  lemma TrailingSnoc(outcomes: seq<bool>, b: bool)
    ensures TrailingMisses(outcomes + [b]) == if b then 0 else 1 + TrailingMisses(outcomes)
  {
    assert (outcomes + [b])[..|outcomes|] == outcomes;
  }

  lemma PublishKeepsGood(s: Session, p: Payload)
    requires Good(s)
    ensures Good(AfterPublish(s, p))
  {
    hide Subsequence, TrailingMisses, StarvedOnce;
    if s.inHub {
      var sent := |s.c.queue| < QUEUE_CAPACITY;
      SubsequenceGrows(s.queued, s.offered, p);
      assert s.taken + (s.c.queue + [p]) == s.taken + s.c.queue + [p];
      TrailingSnoc(s.outcomes, sent);
      StarvedStep(s.outcomes, sent);
    }
  }

  lemma TakeKeepsGood(s: Session)
    requires Good(s)
    ensures Good(AfterTake(s))
  {
    hide Subsequence, TrailingMisses, StarvedOnce;
    if s.c.queue != [] {
      assert s.taken + s.c.queue == s.taken + [s.c.queue[0]] + s.c.queue[1..];
    }
  }

  /**
   * In every interleaving and for every client: the queue is closed at most once and only when the
   * client leaves the hub, nothing is sent on a closed queue, at most 8 frames wait, the writer takes
   * a prefix of a subsequence of what was offered, and a forced disconnect had six misses in a row.
   */
  lemma {:induction false} RunsStayGood(steps: seq<Step>, id: int)
    requires id in Run(steps)
    ensures Good(Run(steps)[id])
  {
    var n := |steps| - 1;
    var before, e := Run(steps[..n]), steps[n];
    hide Good, AfterInitialPush, AfterPublish, AfterTake, AfterRemove;
    if id in before {
      RunsStayGood(steps[..n], id);
      SessionStaysGood(before[id], e);
    } else {
      NewIsGood();
    }
  }

  lemma NewIsGood()
    ensures Good(NEW)
  {
  }

  lemma SessionStaysGood(s: Session, e: Step)
    requires Good(s)
    ensures match e
            case Connect(_) => true
            case InitialPush(_, p) => !s.started ==> Good(AfterInitialPush(s, p))
            case InitialSkip(_) => Good(s.(started := true))
            case Publish(p) => Good(AfterPublish(s, p))
            case WriterTakes(_) => Good(AfterTake(s))
            case ReaderEnds(_) => s.started ==> Good(AfterRemove(s))
  {
    match e
    case Connect(_) =>
    case InitialPush(_, p) => if !s.started { PushKeepsGood(s, p); }
    case InitialSkip(_) => hide Subsequence, TrailingMisses, StarvedOnce;
    case Publish(p) => PublishKeepsGood(s, p);
    case WriterTakes(_) => TakeKeepsGood(s);
    case ReaderEnds(_) => hide Subsequence, TrailingMisses, StarvedOnce;
  }

  /** Fewer than 8 waiting frames leave room: then the initial push and every broadcast to a client of the hub are queued, else they are dropped. */
  lemma QueuedIffRoom(s: Session, p: Payload)
    ensures AfterInitialPush(s, p).c == s.c.(queue := if |s.c.queue| < 8 then s.c.queue + [p] else s.c.queue)
    ensures s.inHub ==> AfterPublish(s, p).c.queue == if |s.c.queue| < 8 then s.c.queue + [p] else s.c.queue
    ensures s.inHub ==> AfterPublish(s, p).outcomes == s.outcomes + [|s.c.queue| < 8]
    ensures !s.inHub ==> AfterPublish(s, p) == s
  {
  }
}
