/** The delayed sender: one producer thread fills a bounded queue while one drainer thread
    empties it. Each shared access is one atomic step; a run is any sequence of steps of the two
    threads and of the environment, so the theorems hold under every interleaving.

    The i-th session ever accepted is represented by its number i, which is its identity: the
    tracker hands each session object over at most once. */
module DelayedSender {

  /** Where `send(SIPSession)` stands. */
  datatype Producer =
    | Idle
    | Counting                     // about to read the size of the session queue
    | Summing(sessionCount: nat)   // about to add the size of the message queue and compare
    | Discarding                   // overflow: about to count a discarded session
    | Polling                      // about to drop the head
    | Adding                       // about to append the new session

  /** Where the drainer stands. The second loop is guarded by the message queue but peeks at,
      sends and removes from the session queue, exactly as the first. */
  datatype Loop = OverSessions | OverMessages

  datatype Drainer =
    | Waiting
    | Testing(loop: Loop)          // about to read the size of the loop's queue
    | Guarding(loop: Loop)         // about to read the running flag
    | Peeking(loop: Loop)
    | Sending(loop: Loop, head: Item)
    | Removing(loop: Loop, head: Item)

  /** What `peek` and `poll` return: null on an empty queue. */
  datatype Item = Null | Session(number: nat)

  datatype Sys = Sys(
    bufferSize: int, sessions: seq<nat>, messages: nat, discarded: nat, running: bool,
    producer: Producer, drainer: Drainer,
    accepted: nat,          // history: how many sessions have been added
    delivered: seq<Item>,   // history: what producer.send accepted, in order
    polled: seq<Item>)      // history: what the producer's poll returned, in order

  datatype Event =
    | BeginSend       // the capture thread calls send(session)
    | StoreMessage    // the capture thread calls send(message) while the connection is down
    | Produce         // the producer takes its next step
    | Wake            // the drainer's wait ends
    | Drain           // the drainer takes its next step; a send succeeds
    | FailSend        // the drainer's send throws
    | Stop            // stop() clears the running flag
    | Restart         // after a reconnection a new drainer starts, the old one being at rest

  function Initial(bufferSize: int): Sys {
    Sys(bufferSize, [], 0, 0, true, Idle, Waiting, 0, [], [])
  }

  function Head(q: seq<nat>): Item { if q == [] then Null else Session(q[0]) }

  function Tail(q: seq<nat>): seq<nat> { if q == [] then [] else q[1..] }

  /** `ConcurrentLinkedQueue.remove`: drops the first occurrence, if any. */
  function Without(q: seq<nat>, x: nat): seq<nat> {
    if q == [] then [] else if q[0] == x then q[1..] else [q[0]] + Without(q[1..], x)
  }

  function Produced(s: Sys): Sys {
    match s.producer
    case Idle => s
    case Counting => s.(producer := Summing(|s.sessions|))
    case Summing(n) => s.(producer := if n + s.messages > s.bufferSize then Discarding else Adding)
    case Discarding => s.(producer := Polling, discarded := s.discarded + 1)
    case Polling =>
      s.(producer := Adding, sessions := Tail(s.sessions), polled := s.polled + [Head(s.sessions)])
    case Adding =>
      s.(producer := Idle, sessions := s.sessions + [s.accepted], accepted := s.accepted + 1)
  }

  /** Where the drainer goes when a loop ends. */
  function After(l: Loop): Drainer { if l.OverSessions? then Testing(OverMessages) else Waiting }

  function Drained(s: Sys): Sys {
    match s.drainer
    case Waiting => s
    case Testing(l) =>
      var size := if l.OverSessions? then |s.sessions| else s.messages;
      s.(drainer := if size > 0 then Guarding(l) else After(l))
    case Guarding(l) => s.(drainer := if s.running then Peeking(l) else After(l))
    case Peeking(l) => s.(drainer := Sending(l, Head(s.sessions)))
    case Sending(l, x) => s.(drainer := Removing(l, x), delivered := s.delivered + [x])
    case Removing(l, x) =>
      s.(drainer := Testing(l), sessions := if x.Null? then s.sessions else Without(s.sessions, x.number))
  }

  /** One step. A step that is not possible in the current state leaves it unchanged. */
  function Step(s: Sys, e: Event): Sys {
    match e
    case BeginSend => if s.producer.Idle? then s.(producer := Counting) else s
    case StoreMessage => if s.producer.Idle? then s.(messages := s.messages + 1) else s
    case Produce => Produced(s)
    case Wake => if s.drainer.Waiting? && s.running then s.(drainer := Testing(OverSessions)) else s
    case Drain => Drained(s)
    case FailSend => if s.drainer.Sending? then s.(drainer := Waiting) else s
    case Stop => s.(running := false)
    case Restart => if s.drainer.Waiting? then s.(running := true) else s
  }

  function Run(s: Sys, es: seq<Event>): Sys {
    if es == [] then s else Step(Run(s, es[..|es| - 1]), es[|es| - 1])
  }

  // ---------------------------------------------------------------------------------------
  // Invariant
  // ---------------------------------------------------------------------------------------

  /** Number of sessions that have left the queue; they are the oldest ones. */
  function Gone(s: Sys): int { s.accepted - |s.sessions| }

  /** Strictly increasing numbers below `bound`, ignoring nulls. */
  ghost predicate Rising(xs: seq<Item>, bound: int) {
    && (forall i :: 0 <= i < |xs| && xs[i].Session? ==> xs[i].number < bound)
    && (forall i, j :: 0 <= i < j < |xs| && xs[i].Session? && xs[j].Session? ==> xs[i].number < xs[j].number)
  }

  ghost predicate QueueInOrder(s: Sys) {
    && 0 <= Gone(s)
    && (forall i :: 0 <= i < |s.sessions| ==> s.sessions[i] == Gone(s) + i)
  }

  /** Every session that left the queue was delivered or polled out. */
  ghost predicate NothingLost(s: Sys) {
    forall k: nat :: k < Gone(s) ==> Session(k) in s.delivered || Session(k) in s.polled
  }

  /** Deliveries rise; the head the drainer holds has not been delivered before. */
  ghost predicate DeliveriesRise(s: Sys) {
    match s.drainer
    case Sending(_, Session(n)) => Rising(s.delivered, n) && n <= Gone(s) && n < s.accepted
    case Removing(_, Session(n)) =>
      Rising(s.delivered, n + 1) && Session(n) in s.delivered && n <= Gone(s) && n < s.accepted
    case _ => Rising(s.delivered, Gone(s))
  }

  ghost predicate PollsCounted(s: Sys) {
    && Rising(s.polled, Gone(s))
    && s.discarded == |s.polled| + if s.producer.Polling? then 1 else 0
  }

  function Max(a: int, b: int): int { if a > b then a else b }

  /** The size bound that holds while the producer is between the given two steps. */
  ghost predicate Bounded(s: Sys) {
    && |s.sessions| <= Max(s.bufferSize, 0) + 1
    && (s.producer.Summing? ==> |s.sessions| <= s.producer.sessionCount <= Max(s.bufferSize, 0) + 1)
    && (s.producer.Adding? ==> |s.sessions| <= Max(s.bufferSize, 0))
  }

  ghost predicate Inv(s: Sys) {
    QueueInOrder(s) && NothingLost(s) && DeliveriesRise(s) && PollsCounted(s) && Bounded(s)
  }

  lemma WithoutHead(q: seq<nat>, x: nat)
    requires q != [] && q[0] == x
    ensures Without(q, x) == q[1..]
  {}

  lemma {:induction false} WithoutAbsent(q: seq<nat>, x: nat)
    requires x !in q
    ensures Without(q, x) == q
  {
    if q != [] { WithoutAbsent(q[1..], x); }
  }

  lemma RisingSnoc(xs: seq<Item>, n: nat)
    requires Rising(xs, n)
    ensures Rising(xs + [Session(n)], n + 1)
  {}

  lemma PollInv(s: Sys)
    requires Inv(s) && s.producer.Polling? && s.sessions != []
    ensures Inv(Produced(s))
  {
    var s1, n := Produced(s), Gone(s);
    assert s.sessions[0] == n && Gone(s1) == n + 1;
    RisingSnoc(s.polled, n);
    forall k: nat | k < Gone(s1) ensures Session(k) in s1.delivered || Session(k) in s1.polled {
      assert s1.polled[|s.polled|] == Session(n);
      assert k < n ==> Session(k) in s.delivered || Session(k) in s.polled;
    }
  }

  lemma BlankPollInv(s: Sys)
    requires Inv(s) && s.producer.Polling? && s.sessions == []
    ensures Inv(Produced(s))
  {
    var s1 := Produced(s);
    assert s1.polled == s.polled + [Null];
    forall k: nat | k < Gone(s1) ensures Session(k) in s1.delivered || Session(k) in s1.polled {
      assert Session(k) in s.delivered || Session(k) in s.polled;
    }
  }

  lemma AddInv(s: Sys)
    requires Inv(s) && s.producer.Adding?
    ensures Inv(Produced(s))
  {
    assert Gone(Produced(s)) == Gone(s);
    assert NothingLost(Produced(s)) by {
      forall k: nat | k < Gone(s) ensures Session(k) in s.delivered || Session(k) in s.polled {}
    }
  }

  /** A producer step that leaves both queues alone. */
  lemma CountInv(s: Sys, p: Producer, d: nat)
    requires Inv(s) && !p.Adding?
    requires d == |s.polled| + (if p.Polling? then 1 else 0)
    requires p.Summing? ==> |s.sessions| <= p.sessionCount <= Max(s.bufferSize, 0) + 1
    ensures Inv(s.(producer := p, discarded := d))
  {
    var s1 := s.(producer := p, discarded := d);
    assert NothingLost(s1) by {
      forall k: nat | k < Gone(s) ensures Session(k) in s.delivered || Session(k) in s.polled {}
    }
  }

  lemma FitsInv(s: Sys)
    requires Inv(s) && s.producer.Summing? && s.producer.sessionCount <= s.bufferSize
    ensures Inv(s.(producer := Adding))
  {
    assert NothingLost(s.(producer := Adding)) by {
      forall k: nat | k < Gone(s) ensures Session(k) in s.delivered || Session(k) in s.polled {}
    }
  }

  lemma ProducedInv(s: Sys)
    requires Inv(s)
    ensures Inv(Produced(s))
  {
    match s.producer
    case Idle =>
    case Counting => CountInv(s, Summing(|s.sessions|), s.discarded);
    case Summing(n) =>
      if n + s.messages > s.bufferSize { CountInv(s, Discarding, s.discarded); } else { FitsInv(s); }
    case Discarding => CountInv(s, Polling, s.discarded + 1);
    case Polling => if s.sessions == [] { BlankPollInv(s); } else { PollInv(s); }
    case Adding => AddInv(s);
  }

  /** A drainer step that only moves the drainer, which holds no head before or after. */
  lemma MoveInv(s: Sys, d: Drainer)
    requires Inv(s) && !d.Sending? && !d.Removing?
    requires (s.drainer.Sending? || s.drainer.Removing?) ==> s.drainer.head.Null?
    ensures Inv(s.(drainer := d))
  {
    assert NothingLost(s.(drainer := d)) by {
      forall k: nat | k < Gone(s) ensures Session(k) in s.delivered || Session(k) in s.polled {}
    }
  }

  lemma PeekInv(s: Sys, l: Loop)
    requires Inv(s) && s.drainer == Peeking(l)
    ensures Inv(Drained(s))
  {
    assert NothingLost(Drained(s)) by {
      forall k: nat | k < Gone(s) ensures Session(k) in s.delivered || Session(k) in s.polled {}
    }
  }

  lemma SendInv(s: Sys)
    requires Inv(s) && s.drainer.Sending?
    ensures Inv(Drained(s))
  {
    var s1, x := Drained(s), s.drainer.head;
    assert s1.delivered == s.delivered + [x];
    if x.Session? {
      RisingSnoc(s.delivered, x.number);
      assert s1.delivered[|s.delivered|] == x;
    }
    forall k: nat | k < Gone(s1) ensures Session(k) in s1.delivered || Session(k) in s1.polled {
      assert Session(k) in s.delivered || Session(k) in s.polled;
    }
  }

  lemma RemoveInv(s: Sys)
    requires Inv(s) && s.drainer.Removing? && s.drainer.head.Session?
    ensures Inv(Drained(s))
  {
    var s1, n := Drained(s), s.drainer.head.number;
    if n < Gone(s) {
      WithoutAbsent(s.sessions, n);
    } else {
      assert s.sessions[0] == n;
      WithoutHead(s.sessions, n);
    }
    forall k: nat | k < Gone(s1) ensures Session(k) in s1.delivered || Session(k) in s1.polled {
      assert k == n || k < Gone(s);
    }
  }

  lemma DrainedInv(s: Sys)
    requires Inv(s)
    ensures Inv(Drained(s))
  {
    hide QueueInOrder, NothingLost, DeliveriesRise, PollsCounted, Bounded;
    match s.drainer
    case Waiting =>
    case Testing(_) => MoveInv(s, Drained(s).drainer);
    case Guarding(_) => MoveInv(s, Drained(s).drainer);
    case Peeking(l) => PeekInv(s, l);
    case Sending(_, _) => SendInv(s);
    case Removing(l, x) => if x.Session? { RemoveInv(s); } else { MoveInv(s, Testing(l)); }
  }

  /** BeginSend, StoreMessage, Stop and Restart. */
  lemma OutsideInv(s: Sys, p: Producer, messages: nat, running: bool)
    requires Inv(s) && (p == s.producer || (s.producer.Idle? && p.Counting?))
    ensures Inv(s.(producer := p, messages := messages, running := running))
  {
    var s1 := s.(producer := p, messages := messages, running := running);
    assert NothingLost(s1) by {
      forall k: nat | k < Gone(s) ensures Session(k) in s.delivered || Session(k) in s.polled {}
    }
  }

  /** FailSend: the head stays queued, or was polled out meanwhile, and is not delivered. */
  lemma FailInv(s: Sys)
    requires Inv(s) && s.drainer.Sending?
    ensures Inv(s.(drainer := Waiting))
  {
    assert NothingLost(s.(drainer := Waiting)) by {
      forall k: nat | k < Gone(s) ensures Session(k) in s.delivered || Session(k) in s.polled {}
    }
  }

  lemma StepInv(s: Sys, e: Event)
    requires Inv(s)
    ensures Inv(Step(s, e))
  {
    hide Inv, Drained, Produced;
    match e
    case BeginSend => if s.producer.Idle? { OutsideInv(s, Counting, s.messages, s.running); }
    case StoreMessage => OutsideInv(s, s.producer, s.messages + 1, s.running);
    case Produce => ProducedInv(s);
    case Wake => if s.drainer.Waiting? { MoveInv(s, Testing(OverSessions)); }
    case Drain => DrainedInv(s);
    case FailSend => if s.drainer.Sending? { FailInv(s); }
    case Stop => OutsideInv(s, s.producer, s.messages, false);
    case Restart => OutsideInv(s, s.producer, s.messages, true);
  }

  lemma {:induction false} RunInv(bufferSize: int, es: seq<Event>)
    ensures Inv(Run(Initial(bufferSize), es))
    ensures Run(Initial(bufferSize), es).bufferSize == bufferSize
  {
    if es != [] {
      RunInv(bufferSize, es[..|es| - 1]);
      StepInv(Run(Initial(bufferSize), es[..|es| - 1]), es[|es| - 1]);
    }
  }

  // ---------------------------------------------------------------------------------------
  // Theorems about every interleaving
  // ---------------------------------------------------------------------------------------

  /** Every accepted session is queued, delivered, or was polled out after the discard counter
      was increased for it; a queued session was never polled. */
  lemma EverySessionAccountedFor(bufferSize: int, es: seq<Event>, k: nat)
    requires k < Run(Initial(bufferSize), es).accepted
    ensures var s := Run(Initial(bufferSize), es);
            && (k in s.sessions || Session(k) in s.delivered || Session(k) in s.polled)
            && (k in s.sessions ==> Session(k) !in s.polled)
            && |s.polled| <= s.discarded
  {
    RunInv(bufferSize, es);
    var s := Run(Initial(bufferSize), es);
    if k >= Gone(s) {
      assert s.sessions[k - Gone(s)] == k;
    }
  }

  /** Real deliveries happen at most once each and in the order of acceptance, even when a send
      throws and is retried, or the head is polled out between `peek` and `remove`. */
  lemma DeliveredOnceInOrder(bufferSize: int, es: seq<Event>)
    ensures var s := Run(Initial(bufferSize), es); Rising(s.delivered, s.accepted)
  {
    RunInv(bufferSize, es);
  }

  /** The queue holds at most one session more than the buffer size, at every moment. */
  lemma QueueBounded(bufferSize: int, es: seq<Event>)
    ensures |Run(Initial(bufferSize), es).sessions| <= Max(bufferSize, 0) + 1
  {
    RunInv(bufferSize, es);
  }

  lemma {:induction false} RunAppend(s: Sys, es: seq<Event>, fs: seq<Event>)
    ensures Run(s, es + fs) == Run(Run(s, es), fs)
  {
    if fs == [] {
      assert es + fs == es;
    } else {
      assert (es + fs)[..|es + fs| - 1] == es + fs[..|fs| - 1];
      RunAppend(s, es, fs[..|fs| - 1]);
    }
  }

  lemma RunOne(s: Sys, e: Event)
    ensures Run(s, [e]) == Step(s, e)
  {
    assert [e][..0] == [];
    assert Run(s, []) == s;
  }

  lemma RunFour(s: Sys, e0: Event, e1: Event, e2: Event, e3: Event)
    ensures Run(s, [e0, e1, e2, e3]) == Step(Step(Step(Step(s, e0), e1), e2), e3)
  {
    hide Step;
    RunOne(s, e0);
    assert [e0, e1][..1] == [e0] && [e0, e1, e2][..2] == [e0, e1] && [e0, e1, e2, e3][..3] == [e0, e1, e2];
    assert Run(s, [e0, e1]) == Step(Run(s, [e0]), e1);
    assert Run(s, [e0, e1, e2]) == Step(Run(s, [e0, e1]), e2);
  }

  lemma {:induction false} SummingWaits(s: Sys, es: seq<Event>)
    requires s.producer.Summing? && Produce !in es
    ensures Run(s, es).producer == s.producer && Run(s, es).messages == s.messages
    ensures Run(s, es).bufferSize == s.bufferSize
  {
    if es != [] { SummingWaits(s, es[..|es| - 1]); }
  }

  /** Whether a session is discarded is decided by the length that the queue had at the producer's
      first read, however much the drainer takes out of it before the decision. */
  lemma FirstReadDecides(s: Sys, es: seq<Event>)
    requires s.producer.Counting? && Produce !in es
    ensures Run(s, [Produce] + es + [Produce]).producer ==
            if |s.sessions| + s.messages > s.bufferSize then Discarding else Adding
  {
    RunOne(s, Produce);
    RunAppend(s, [Produce], es);
    SummingWaits(Run(s, [Produce]), es);
    RunAppend(s, [Produce] + es, [Produce]);
    RunOne(Run(s, [Produce] + es), Produce);
  }

  // ---------------------------------------------------------------------------------------
  // The drain loop on its own
  // ---------------------------------------------------------------------------------------

  function Drains(k: nat): seq<Event> { seq(k, _ => Drain) }

  function Items(q: seq<nat>): seq<Item> {
    if q == [] then [] else [Session(q[0])] + Items(q[1..])
  }

  /** Five steps deliver and remove the head; two more leave both loops. */
  function DrainLength(n: nat): nat { 5 * n + 2 }

  lemma DrainNone(s: Sys)
    ensures Run(s, Drains(0)) == s
  {}

  lemma DrainFirst(s: Sys, k: nat)
    ensures Run(s, Drains(k + 1)) == Run(Drained(s), Drains(k))
  {
    assert Drains(k + 1) == [Drain] + Drains(k);
    RunAppend(s, [Drain], Drains(k));
    RunOne(s, Drain);
  }

  lemma DrainOne(s: Sys, k: nat)
    requires s.drainer == Testing(OverSessions) && s.running && s.sessions != []
    ensures Run(s, Drains(k + 5)) ==
            Run(s.(sessions := s.sessions[1..], delivered := s.delivered + [Session(s.sessions[0])]), Drains(k))
  {
    var s1 := s.(drainer := Guarding(OverSessions));
    var s2 := s.(drainer := Peeking(OverSessions));
    var x := Session(s.sessions[0]);
    var s3 := s.(drainer := Sending(OverSessions, x));
    var s4 := s.(drainer := Removing(OverSessions, x), delivered := s.delivered + [x]);
    DrainFirst(s, k + 4);
    DrainFirst(s1, k + 3);
    DrainFirst(s2, k + 2);
    DrainFirst(s3, k + 1);
    DrainFirst(s4, k);
    WithoutHead(s.sessions, s.sessions[0]);
  }

  lemma DrainEmpty(s: Sys)
    requires s.drainer == Testing(OverSessions) && s.messages == 0 && s.sessions == []
    ensures Run(s, Drains(2)) == s.(drainer := Waiting)
  {
    DrainFirst(s, 1);
    DrainFirst(s.(drainer := Testing(OverMessages)), 0);
    assert Drains(0) == [];
  }

  /** With no stored messages, no other thread and no failing or stopping, the drain loop ends
      after delivering exactly the queue, in order. */
  lemma {:induction false} DrainDelivers(s: Sys)
    requires s.drainer == Testing(OverSessions) && s.running && s.messages == 0
    ensures Run(s, Drains(DrainLength(|s.sessions|))) ==
            s.(drainer := Waiting, sessions := [], delivered := s.delivered + Items(s.sessions))
    decreases |s.sessions|
  {
    if s.sessions == [] {
      DrainEmpty(s);
      assert s.delivered + Items(s.sessions) == s.delivered;
    } else {
      var x := Session(s.sessions[0]);
      DrainOne(s, DrainLength(|s.sessions| - 1));
      DrainDelivers(s.(sessions := s.sessions[1..], delivered := s.delivered + [x]));
      assert s.delivered + [x] + Items(s.sessions[1..]) == s.delivered + Items(s.sessions);
    }
  }

  /** A running drainer that is inside a pass while messages are stored stays inside it. */
  lemma {:induction false} PassGoesOn(s: Sys, k: nat)
    requires s.running && s.messages > 0 && !s.drainer.Waiting?
    ensures !Run(s, Drains(k)).drainer.Waiting?
    decreases k
  {
    if k > 0 {
      DrainFirst(s, k - 1);
      PassGoesOn(Drained(s), k - 1);
    } else {
      assert Drains(0) == [];
    }
  }

  /** On its own, with nothing failing or stopping, a pass ends exactly when no message is stored. */
  lemma PassEnds(s: Sys)
    requires s.drainer == Testing(OverSessions) && s.running
    ensures (exists k :: Run(s, Drains(k)).drainer.Waiting?) <==> s.messages == 0
  {
    if s.messages == 0 {
      DrainDelivers(s);
      assert Run(s, Drains(DrainLength(|s.sessions|))).drainer.Waiting?;
    } else {
      forall k: nat ensures !Run(s, Drains(k)).drainer.Waiting? {
        PassGoesOn(s, k);
      }
    }
  }

  function Nulls(n: nat): seq<Item> { seq(n, _ => Null) }

  /** One turn of the second loop over an empty session queue: five steps that send null. */
  lemma DrainNull(s: Sys, k: nat)
    requires s.drainer == Testing(OverMessages) && s.running && s.messages > 0 && s.sessions == []
    ensures Run(s, Drains(k + 5)) == Run(s.(delivered := s.delivered + [Null]), Drains(k))
  {
    hide Run, Drains;
    DrainFirst(s, k + 4);
    DrainFirst(s.(drainer := Guarding(OverMessages)), k + 3);
    DrainFirst(s.(drainer := Peeking(OverMessages)), k + 2);
    DrainFirst(s.(drainer := Sending(OverMessages, Null)), k + 1);
    DrainFirst(s.(drainer := Removing(OverMessages, Null), delivered := s.delivered + [Null]), k);
  }

  lemma {:induction false} DrainNulls(s: Sys, turns: nat)
    requires s.drainer == Testing(OverMessages) && s.running && s.messages > 0 && s.sessions == []
    ensures Run(s, Drains(5 * turns)) == s.(delivered := s.delivered + Nulls(turns))
    decreases turns
  {
    hide Run;
    if turns == 0 {
      DrainNone(s);
      assert s.delivered + Nulls(0) == s.delivered;
    } else {
      DrainNull(s, 5 * (turns - 1));
      DrainNulls(s.(delivered := s.delivered + [Null]), turns - 1);
      assert s.delivered + [Null] + Nulls(turns - 1) == s.delivered + Nulls(turns);
    }
  }

  /** With stored messages a pass delivers the queue in order, and then null again and again. */
  lemma {:induction false} DrainRepeatsNull(s: Sys, turns: nat)
    requires s.drainer == Testing(OverSessions) && s.running && s.messages > 0
    ensures Run(s, Drains(5 * |s.sessions| + 1 + 5 * turns)) ==
            s.(drainer := Testing(OverMessages), sessions := [],
               delivered := s.delivered + Items(s.sessions) + Nulls(turns))
    decreases |s.sessions|
  {
    hide Run, Drains, Nulls;
    if s.sessions == [] {
      DrainFirst(s, 5 * turns);
      DrainNulls(s.(drainer := Testing(OverMessages)), turns);
      assert s.delivered + Items(s.sessions) == s.delivered;
    } else {
      var x := Session(s.sessions[0]);
      DrainOne(s, 5 * (|s.sessions| - 1) + 1 + 5 * turns);
      DrainRepeatsNull(s.(sessions := s.sessions[1..], delivered := s.delivered + [x]), turns);
      assert s.delivered + [x] + Items(s.sessions[1..]) == s.delivered + Items(s.sessions);
    }
  }

  /** A pass over stored messages that is stopped after some turns of the second loop. */
  function StoppedPass(queued: nat, turns: nat): seq<Event> {
    Drains(5 * queued + 1 + 5 * turns) + ([Stop] + Drains(2))
  }

  lemma StoppedPassRuns(s: Sys, turns: nat)
    requires s.drainer == Testing(OverSessions) && s.running && s.messages > 0
    ensures Run(s, StoppedPass(|s.sessions|, turns)) ==
            s.(drainer := Waiting, running := false, sessions := [],
               delivered := s.delivered + Items(s.sessions) + Nulls(turns))
  {
    hide Run, Drains, Items, Nulls;
    var pass := Drains(5 * |s.sessions| + 1 + 5 * turns);
    var s1 := s.(drainer := Testing(OverMessages), sessions := [],
                 delivered := s.delivered + Items(s.sessions) + Nulls(turns));
    DrainRepeatsNull(s, turns);
    RunAppend(s, pass, [Stop] + Drains(2));
    RunAppend(s1, [Stop], Drains(2));
    RunOne(s1, Stop);
    DrainStopped(s1.(running := false));
  }

  /** Stopped between the two tests of the second loop, the pass ends in two steps. */
  lemma DrainStopped(s: Sys)
    requires s.drainer == Testing(OverMessages) && !s.running && s.messages > 0
    ensures Run(s, Drains(2)) == s.(drainer := Waiting)
  {
    DrainFirst(s, 1);
    DrainFirst(s.(drainer := Guarding(OverMessages)), 0);
    assert Drains(0) == [];
  }

  /** A drainer that finds the running flag clear delivers nothing and comes to rest: it leaves each
      loop at its first test. */
  lemma PassRefused(s: Sys)
    requires s.drainer == Testing(OverSessions) && !s.running
    ensures Run(s, Drains(4)) == s.(drainer := Waiting)
  {
    hide Run, Drains;
    DrainFirst(s, 3);
    if s.sessions != [] {
      DrainFirst(s.(drainer := Guarding(OverSessions)), 2);
      LastLoopRefused(s.(drainer := Testing(OverMessages)), 0);
    } else {
      LastLoopRefused(s.(drainer := Testing(OverMessages)), 1);
    }
  }

  lemma LastLoopRefused(s: Sys, more: nat)
    requires s.drainer == Testing(OverMessages) && !s.running
    ensures Run(s, Drains(more + 2)) == s.(drainer := Waiting)
  {
    hide Run, Drains;
    var rest := s.(drainer := Waiting);
    DrainFirst(s, more + 1);
    DrainAtRest(rest, more);
    DrainAtRest(rest, more + 1);
    DrainFirst(s.(drainer := Guarding(OverMessages)), more);
  }

  lemma {:induction false} DrainAtRest(s: Sys, k: nat)
    requires s.drainer.Waiting?
    ensures Run(s, Drains(k)) == s
  {
    if k == 0 {
      DrainNone(s);
    } else {
      DrainFirst(s, k - 1);
      DrainAtRest(s, k - 1);
    }
  }

  // ---------------------------------------------------------------------------------------
  // The sender object
  // ---------------------------------------------------------------------------------------

  class JmsSender {
    var isDelayed: bool
    var connected: bool        // the JMS connection is in the running state
    var running: bool          // the drainer's flag
    var bufferSize: int
    var sessions: seq<nat>
    var messages: nat          // only the number of stored messages matters
    var discarded: nat
    ghost var accepted: nat
    ghost var delivered: seq<Item>
    ghost var polled: seq<Item>

    ghost function View(p: Producer, d: Drainer): Sys
      reads this
    {
      Sys(bufferSize, sessions, messages, discarded, running, p, d, accepted, delivered, polled)
    }

    constructor (bufferSize: int, isDelayed: bool)
      ensures View(Idle, Waiting) == Initial(bufferSize) && this.isDelayed == isDelayed && !connected
    {
      this.bufferSize, this.isDelayed, connected, running := bufferSize, isDelayed, false, true;
      sessions, messages, discarded := [], 0, 0;
      accepted, delivered, polled := 0, [], [];
    }

    /** Whether the buffer is over its size. */
    predicate IsBufferOverflowed()
      reads this
    {
      |sessions| + messages > bufferSize
    }

    /** In delayed mode, an uninterrupted call is the run of the producer's steps, whatever the
        drainer was doing. Otherwise the session is sent at once, or discarded when the sender
        is not connected. */
    method Send(session: nat, throws: bool, ghost d: Drainer)
      requires session == accepted
      modifies this
      ensures isDelayed == old(isDelayed) && connected == old(connected)
      ensures isDelayed ==>
                View(Idle, d) == Run(old(View(Idle, d)), SendSteps(old(IsBufferOverflowed())))
      ensures !isDelayed ==>
                View(Idle, d) == old(View(Idle, d)).(
                  accepted := old(accepted) + 1,
                  delivered := old(delivered) + if connected && !throws then [Session(session)] else [])
    {
      ghost var s := View(Idle, d);
      if isDelayed {
        if !IsBufferOverflowed() {
          SendFits(s);
          sessions := sessions + [session];
        } else {
          SendOverflows(s);
          discarded := discarded + 1;
          polled := polled + [Head(sessions)];
          sessions := Tail(sessions);
          sessions := sessions + [session];
        }
      } else if connected && !throws {
        delivered := delivered + [Session(session)];
      }
      accepted := accepted + 1;
    }

    /** One pass of the drainer with nothing failing. The queue is delivered in order. With stored
        messages the second loop then sends null until `stop()` clears the flag, here after the
        given number of turns; without any, the pass ends by itself. */
    method DrainPass(turns: nat)
      modifies this`sessions, this`delivered, this`running
      ensures running == (old(running) && messages == 0)
      ensures !old(running) ==> sessions == old(sessions) && delivered == old(delivered)
      ensures old(running) ==>
                && sessions == []
                && delivered == old(delivered) + Items(old(sessions)) + if messages == 0 then [] else Nulls(turns)
      ensures View(Idle, Waiting) ==
              Run(old(View(Idle, Testing(OverSessions))),
                  if !old(running) then Drains(4)
                  else if messages == 0 then Drains(DrainLength(|old(sessions)|))
                  else StoppedPass(|old(sessions)|, turns))
    {
      hide Run, Drains, StoppedPass;
      ghost var start := View(Idle, Testing(OverSessions));
      if !running {
        PassRefused(start);
      } else if messages == 0 {
        DrainDelivers(start);
      } else {
        StoppedPassRuns(start, turns);
      }
      while |sessions| > 0 && running
        invariant running == old(running)
        invariant running ==> delivered + Items(sessions) == old(delivered) + Items(old(sessions))
        invariant !running ==> sessions == old(sessions) && delivered == old(delivered)
      {
        var session := sessions[0];
        delivered := delivered + [Session(session)];
        WithoutHead(sessions, session);
        sessions := Without(sessions, session);
      }
      assert running ==> delivered == delivered + Items(sessions);
      var turn := 0;
      running := running && (messages == 0 || turn < turns);
      while messages > 0 && running
        invariant 0 <= turn <= turns
        invariant old(running) ==>
                    && sessions == [] && delivered == old(delivered) + Items(old(sessions)) + Nulls(turn)
                    && running == (messages == 0 || turn < turns)
        invariant !old(running) ==> !running && sessions == old(sessions) && delivered == old(delivered)
        invariant messages == 0 || !old(running) ==> turn == 0
        decreases turns - turn
      {
        assert Nulls(turn + 1) == Nulls(turn) + [Null];
        delivered := delivered + [Head(sessions)];
        turn := turn + 1;
        running := turn < turns;
      }
    }
  }

  function SendSteps(overflow: bool): seq<Event> {
    if overflow then [BeginSend, Produce, Produce, Produce] + [Produce, Produce]
    else [BeginSend, Produce, Produce, Produce]
  }

  lemma SendFits(s: Sys)
    requires s.producer.Idle? && |s.sessions| + s.messages <= s.bufferSize
    ensures Run(s, SendSteps(false)) ==
            s.(accepted := s.accepted + 1, sessions := s.sessions + [s.accepted])
  {
    RunFour(s, BeginSend, Produce, Produce, Produce);
  }

  lemma SendDiscards(s: Sys)
    requires s.producer.Idle? && |s.sessions| + s.messages > s.bufferSize
    ensures Run(s, [BeginSend, Produce, Produce, Produce]) ==
            s.(producer := Polling, discarded := s.discarded + 1)
  {
    RunFour(s, BeginSend, Produce, Produce, Produce);
  }

  lemma SendReplaces(s: Sys)
    requires s.producer.Polling?
    ensures Run(s, [Produce, Produce]) ==
            s.(producer := Idle, accepted := s.accepted + 1, sessions := Tail(s.sessions) + [s.accepted],
               polled := s.polled + [Head(s.sessions)])
  {
    RunOne(s, Produce);
    assert [Produce, Produce][..1] == [Produce];
  }

  lemma SendOverflows(s: Sys)
    requires s.producer.Idle? && |s.sessions| + s.messages > s.bufferSize
    ensures Run(s, SendSteps(true)) ==
            s.(accepted := s.accepted + 1, sessions := Tail(s.sessions) + [s.accepted],
               polled := s.polled + [Head(s.sessions)], discarded := s.discarded + 1)
  {
    hide Step;
    RunAppend(s, [BeginSend, Produce, Produce, Produce], [Produce, Produce]);
    SendDiscards(s);
    SendReplaces(s.(producer := Polling, discarded := s.discarded + 1));
  }
}
