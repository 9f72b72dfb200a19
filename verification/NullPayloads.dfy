/** When the delayed sender can send null, when it can count a discard that discards nothing, and
    how full the queue can get: exact thresholds on the number of calls, for every buffer size. */
module NullPayloads {
  import opened DelayedSender

  ghost function Count(es: seq<Event>, e: Event): nat {
    if es == [] then 0 else Count(es[..|es| - 1], e) + if es[|es| - 1] == e then 1 else 0
  }

  /** A run with `n` calls of send(session) and `k` of send(message) that ends in `s`. */
  ghost predicate IsRun(bufferSize: int, n: nat, k: nat, es: seq<Event>, s: Sys) {
    Count(es, BeginSend) == n && Count(es, StoreMessage) == k && Run(Initial(bufferSize), es) == s
  }

  ghost predicate Reaches(bufferSize: int, n: nat, k: nat, s: Sys) {
    exists es :: IsRun(bufferSize, n, k, es, s)
  }

  lemma ReachStart(bufferSize: int)
    ensures Reaches(bufferSize, 0, 0, Initial(bufferSize))
  {
    assert IsRun(bufferSize, 0, 0, [], Initial(bufferSize));
  }

  lemma Go(bufferSize: int, n: nat, k: nat, s: Sys, e: Event)
    requires Reaches(bufferSize, n, k, s)
    ensures Reaches(bufferSize, n + (if e == BeginSend then 1 else 0), k + (if e == StoreMessage then 1 else 0),
                    Step(s, e))
  {
    hide Step;
    var es :| IsRun(bufferSize, n, k, es, s);
    assert (es + [e])[..|es|] == es;
    assert IsRun(bufferSize, n + (if e == BeginSend then 1 else 0), k + (if e == StoreMessage then 1 else 0),
                 es + [e], Step(s, e));
  }

  // ---------------------------------------------------------------------------------------
  // Below the thresholds
  // ---------------------------------------------------------------------------------------

  function Busy(s: Sys): int { if s.producer.Idle? then 0 else 1 }

  /** With at most one call more than the buffer holds and no stored message, no poll takes a
      session, and the drainer never holds null. */
  ghost predicate NoNull(s: Sys, n: nat) {
    && s.messages == 0 && s.accepted + Busy(s) <= n
    && (s.producer.Summing? ==> s.producer.sessionCount <= s.accepted)
    && (s.producer.Discarding? || s.producer.Polling? ==> s.sessions == [])
    && Null !in s.delivered
    && (s.drainer.Guarding? || s.drainer.Peeking? ==> s.drainer.loop.OverSessions? && s.sessions != [])
    && (s.drainer.Sending? || s.drainer.Removing? ==> s.drainer.head.Session?)
  }

  lemma NoNullProduce(s: Sys, n: nat)
    requires 0 <= Gone(s) && NoNull(s, n) && n <= Max(s.bufferSize, 0) + 1
    ensures NoNull(Produced(s), n)
  {}

  lemma NoNullDrain(s: Sys, n: nat)
    requires 0 <= Gone(s) && NoNull(s, n)
    ensures NoNull(Drained(s), n)
  {
    if s.drainer.Removing? && s.sessions == [] { WithoutAbsent(s.sessions, s.drainer.head.number); }
  }

  lemma NoNullStep(s: Sys, e: Event, n: nat)
    requires 0 <= Gone(s) && NoNull(s, n) && e != StoreMessage
    requires n + (if e == BeginSend then 1 else 0) <= Max(s.bufferSize, 0) + 1
    ensures NoNull(Step(s, e), n + if e == BeginSend then 1 else 0)
  {
    hide Produced, Drained;
    if e == Produce { NoNullProduce(s, n); } else if e == Drain { NoNullDrain(s, n); }
  }

  lemma {:induction false} NoNullRun(bufferSize: int, es: seq<Event>)
    requires Count(es, StoreMessage) == 0 && Count(es, BeginSend) <= Max(bufferSize, 0) + 1
    ensures NoNull(Run(Initial(bufferSize), es), Count(es, BeginSend))
  {
    hide NoNull, Step;
    if es == [] {
      NoNullStart(bufferSize);
    } else {
      var front := es[..|es| - 1];
      NoNullRun(bufferSize, front);
      RunInv(bufferSize, front);
      NoNullStep(Run(Initial(bufferSize), front), es[|es| - 1], Count(front, BeginSend));
    }
  }

  lemma NoNullStart(bufferSize: int)
    ensures NoNull(Initial(bufferSize), 0)
  {}

  /** The number of calls from which an overflow is possible. */
  function OverflowCalls(bufferSize: int, k: nat): int { Max(bufferSize + 2 - k, 1) }

  /** An overflow happens only from that number of calls on. */
  ghost predicate OverflowOnlyFrom(s: Sys, n: nat, k: nat) {
    && s.messages <= k && s.accepted + Busy(s) <= n
    && (s.producer.Summing? ==> s.producer.sessionCount <= s.accepted)
    && (s.producer.Discarding? || s.producer.Polling? || s.polled != [] ==> n >= OverflowCalls(s.bufferSize, k))
  }

  lemma OverflowStep(s: Sys, e: Event, n: nat, k: nat)
    requires 0 <= Gone(s) && OverflowOnlyFrom(s, n, k)
    ensures OverflowOnlyFrom(Step(s, e), n + (if e == BeginSend then 1 else 0), k + if e == StoreMessage then 1 else 0)
  {
    if e == Drain { DrainLeaves(s); }
  }

  lemma DrainLeaves(s: Sys)
    ensures Drained(s).producer == s.producer && Drained(s).polled == s.polled && Drained(s).accepted == s.accepted
    ensures Drained(s).messages == s.messages && Drained(s).bufferSize == s.bufferSize
  {}

  lemma {:induction false} OverflowRun(bufferSize: int, es: seq<Event>)
    ensures OverflowOnlyFrom(Run(Initial(bufferSize), es), Count(es, BeginSend), Count(es, StoreMessage))
  {
    hide OverflowOnlyFrom, Step;
    if es == [] {
      OverflowStart(bufferSize);
    } else {
      var front := es[..|es| - 1];
      OverflowRun(bufferSize, front);
      RunInv(bufferSize, front);
      OverflowStep(Run(Initial(bufferSize), front), es[|es| - 1], Count(front, BeginSend), Count(front, StoreMessage));
    }
  }

  lemma OverflowStart(bufferSize: int)
    ensures OverflowOnlyFrom(Initial(bufferSize), 0, 0)
  {}

  // ---------------------------------------------------------------------------------------
  // From the thresholds on
  // ---------------------------------------------------------------------------------------

  /** A call that finds room. */
  lemma CallFits(bufferSize: int, n: nat, k: nat, s: Sys)
    requires Reaches(bufferSize, n, k, s) && s.producer.Idle? && |s.sessions| + s.messages <= s.bufferSize
    ensures Reaches(bufferSize, n + 1, k, s.(accepted := s.accepted + 1, sessions := s.sessions + [s.accepted]))
  {
    hide Reaches;
    Go(bufferSize, n, k, s, BeginSend);
    Go(bufferSize, n + 1, k, s.(producer := Counting), Produce);
    Go(bufferSize, n + 1, k, s.(producer := Summing(|s.sessions|)), Produce);
    Go(bufferSize, n + 1, k, s.(producer := Adding), Produce);
  }

  /** A call that overflows, up to its poll. */
  lemma CallOverflows(bufferSize: int, n: nat, k: nat, s: Sys)
    requires Reaches(bufferSize, n, k, s) && s.producer.Idle? && |s.sessions| + s.messages > s.bufferSize
    ensures Reaches(bufferSize, n + 1, k, s.(producer := Polling, discarded := s.discarded + 1))
  {
    hide Reaches;
    Go(bufferSize, n, k, s, BeginSend);
    Go(bufferSize, n + 1, k, s.(producer := Counting), Produce);
    Go(bufferSize, n + 1, k, s.(producer := Summing(|s.sessions|)), Produce);
    Go(bufferSize, n + 1, k, s.(producer := Discarding), Produce);
  }

  lemma {:induction false} Stored(bufferSize: int, k: nat)
    ensures Reaches(bufferSize, 0, k, Initial(bufferSize).(messages := k))
  {
    if k == 0 {
      ReachStart(bufferSize);
    } else {
      Stored(bufferSize, k - 1);
      Go(bufferSize, 0, k - 1, Initial(bufferSize).(messages := k - 1), StoreMessage);
    }
  }

  /** At rest, with a queue of the given length and nothing in the hands of either thread. */
  ghost predicate Resting(s: Sys, bufferSize: int, n: nat, k: nat) {
    && s.producer.Idle? && s.drainer.Waiting? && s.running
    && s.bufferSize == bufferSize && |s.sessions| == n && s.messages == k
  }

  lemma {:induction false} Filled(bufferSize: int, n: nat, k: nat) returns (s: Sys)
    requires n == 0 || n + k <= bufferSize + 1
    ensures Reaches(bufferSize, n, k, s) && Resting(s, bufferSize, n, k)
  {
    if n == 0 {
      Stored(bufferSize, k);
      s := Initial(bufferSize).(messages := k);
    } else {
      s := Filled(bufferSize, n - 1, k);
      CallFits(bufferSize, n - 1, k, s);
      s := s.(accepted := s.accepted + 1, sessions := s.sessions + [s.accepted]);
    }
  }

  /** The longest queue, with as many calls. */
  lemma Full(bufferSize: int) returns (s: Sys)
    ensures Reaches(bufferSize, Max(bufferSize, 0) + 1, 0, s)
    ensures Resting(s, bufferSize, Max(bufferSize, 0) + 1, 0)
  {
    if bufferSize >= 0 {
      s := Filled(bufferSize, bufferSize + 1, 0);
    } else {
      ReachStart(bufferSize);
      s := Initial(bufferSize);
      CallOverflows(bufferSize, 0, 0, s);
      s := s.(producer := Polling, discarded := 1);
      assert Step(s, Produce) == s.(producer := Adding, polled := [Null]);
      Go(bufferSize, 1, 0, s, Produce);
      Go(bufferSize, 1, 0, s.(producer := Adding, polled := [Null]), Produce);
      s := s.(producer := Adding, polled := [Null]);
      assert Step(s, Produce) == s.(producer := Idle, sessions := [0], accepted := 1);
      s := s.(producer := Idle, sessions := [0], accepted := 1);
    }
  }

  /** The drainer delivers and removes the head. */
  lemma TakesHead(bufferSize: int, n: nat, k: nat, s: Sys)
    requires Reaches(bufferSize, n, k, s)
    requires s.drainer == Testing(OverSessions) && s.running && s.sessions != []
    ensures Reaches(bufferSize, n, k,
                    s.(sessions := s.sessions[1..], delivered := s.delivered + [Session(s.sessions[0])]))
  {
    hide Reaches;
    var x := Session(s.sessions[0]);
    Go(bufferSize, n, k, s, Drain);
    Go(bufferSize, n, k, s.(drainer := Guarding(OverSessions)), Drain);
    Go(bufferSize, n, k, s.(drainer := Peeking(OverSessions)), Drain);
    Go(bufferSize, n, k, s.(drainer := Sending(OverSessions, x)), Drain);
    Go(bufferSize, n, k, s.(drainer := Removing(OverSessions, x), delivered := s.delivered + [x]), Drain);
    WithoutHead(s.sessions, s.sessions[0]);
  }

  /** The drainer empties the queue down to a given length. */
  lemma {:induction false} DrainsTo(bufferSize: int, n: nat, k: nat, s: Sys, left: nat) returns (r: Sys)
    requires Reaches(bufferSize, n, k, s) && left <= |s.sessions|
    requires s.drainer == Testing(OverSessions) && s.running
    ensures Reaches(bufferSize, n, k, r) && |r.sessions| == left
    ensures r == s.(sessions := r.sessions, delivered := r.delivered)
    decreases |s.sessions|
  {
    if left == |s.sessions| {
      r := s;
    } else {
      TakesHead(bufferSize, n, k, s);
      r := DrainsTo(bufferSize, n, k,
                    s.(sessions := s.sessions[1..], delivered := s.delivered + [Session(s.sessions[0])]), left);
    }
  }

  /** A full queue, one more call caught before its poll, and the drainer past both tests with one
      session left: the poll takes that session, and the drainer peeks at nothing. */
  lemma NullByRace(bufferSize: int) returns (s: Sys)
    ensures Reaches(bufferSize, Max(bufferSize, 0) + 2, 0, s) && Null in s.delivered
  {
    var n := Max(bufferSize, 0) + 2;
    s := Full(bufferSize);
    CallOverflows(bufferSize, n - 1, 0, s);
    s := s.(producer := Polling, discarded := s.discarded + 1);
    Go(bufferSize, n, 0, s, Wake);
    s := DrainsTo(bufferSize, n, 0, s.(drainer := Testing(OverSessions)), 1);
    Go(bufferSize, n, 0, s, Drain);
    Go(bufferSize, n, 0, s.(drainer := Guarding(OverSessions)), Drain);
    s := s.(drainer := Peeking(OverSessions));
    s := NullPeeked(bufferSize, n, s);
  }

  lemma NullPeeked(bufferSize: int, n: nat, s0: Sys) returns (s: Sys)
    requires Reaches(bufferSize, n, 0, s0) && |s0.sessions| == 1
    requires s0.producer == Polling && s0.drainer == Peeking(OverSessions)
    ensures Reaches(bufferSize, n, 0, s) && Null in s.delivered
  {
    hide Reaches;
    assert Tail(s0.sessions) == [];
    Go(bufferSize, n, 0, s0, Produce);
    var s1 := s0.(producer := Adding, sessions := [], polled := s0.polled + [Head(s0.sessions)]);
    assert Step(s0, Produce) == s1;
    Go(bufferSize, n, 0, s1, Drain);
    var s2 := s1.(drainer := Sending(OverSessions, Null));
    Go(bufferSize, n, 0, s2, Drain);
    s := s2.(drainer := Removing(OverSessions, Null), delivered := s2.delivered + [Null]);
    assert s.delivered[|s2.delivered|] == Null;
  }

  /** One stored message: the second loop peeks at the empty session queue. */
  lemma NullByMessage(bufferSize: int) returns (s: Sys)
    ensures Reaches(bufferSize, 0, 1, s) && Null in s.delivered
  {
    hide Reaches;
    Stored(bufferSize, 1);
    s := Initial(bufferSize).(messages := 1);
    Go(bufferSize, 0, 1, s, Wake);
    Go(bufferSize, 0, 1, s.(drainer := Testing(OverSessions)), Drain);
    Go(bufferSize, 0, 1, s.(drainer := Testing(OverMessages)), Drain);
    Go(bufferSize, 0, 1, s.(drainer := Guarding(OverMessages)), Drain);
    Go(bufferSize, 0, 1, s.(drainer := Peeking(OverMessages)), Drain);
    Go(bufferSize, 0, 1, s.(drainer := Sending(OverMessages, Null)), Drain);
    assert s.delivered + [Null] == [Null];
    s := s.(drainer := Removing(OverMessages, Null), delivered := [Null]);
    assert s.delivered[0] == Null;
  }

  /** The fewest calls that overflow, and the queue drained before the poll. */
  lemma NullPoll(bufferSize: int, k: nat) returns (s: Sys)
    ensures Reaches(bufferSize, OverflowCalls(bufferSize, k), k, s) && Null in s.polled
  {
    var c := OverflowCalls(bufferSize, k) - 1;
    s := Filled(bufferSize, c, k);
    CallOverflows(bufferSize, c, k, s);
    s := s.(producer := Polling, discarded := s.discarded + 1);
    Go(bufferSize, c + 1, k, s, Wake);
    s := DrainsTo(bufferSize, c + 1, k, s.(drainer := Testing(OverSessions)), 0);
    Go(bufferSize, c + 1, k, s, Produce);
    s := Produced(s);
    assert s.polled[|s.polled| - 1] == Null;
  }

  /** More calls take nothing back. */
  lemma {:induction false} MoreCalls(bufferSize: int, n: nat, k: nat, s: Sys, n1: nat, k1: nat) returns (r: Sys)
    requires Reaches(bufferSize, n, k, s) && n <= n1 && k <= k1
    ensures Reaches(bufferSize, n1, k1, r) && r.delivered == s.delivered && r.polled == s.polled
    decreases n1 - n + k1 - k
  {
    if n < n1 {
      Go(bufferSize, n, k, s, BeginSend);
      r := MoreCalls(bufferSize, n + 1, k, Step(s, BeginSend), n1, k1);
    } else if k < k1 {
      Go(bufferSize, n, k, s, StoreMessage);
      r := MoreCalls(bufferSize, n, k + 1, Step(s, StoreMessage), n1, k1);
    } else {
      r := s;
    }
  }

  // ---------------------------------------------------------------------------------------
  // The exact conditions
  // ---------------------------------------------------------------------------------------

  /** Null can be sent exactly when a message has been stored, or send(session) has been called at
      least two times more than the buffer holds. */
  lemma NullDeliverable(bufferSize: int, n: nat, k: nat)
    ensures (exists s :: Reaches(bufferSize, n, k, s) && Null in s.delivered) <==>
            k >= 1 || n >= Max(bufferSize, 0) + 2
  {
    if k >= 1 {
      var s := NullByMessage(bufferSize);
      s := MoreCalls(bufferSize, 0, 1, s, n, k);
    } else if n >= Max(bufferSize, 0) + 2 {
      var s := NullByRace(bufferSize);
      s := MoreCalls(bufferSize, Max(bufferSize, 0) + 2, 0, s, n, k);
    } else {
      forall s | Reaches(bufferSize, n, k, s) ensures Null !in s.delivered {
        var es :| IsRun(bufferSize, n, k, es, s);
        NoNullRun(bufferSize, es);
      }
    }
  }

  /** The discard counter can count a poll of an empty queue exactly when it can count at all:
      from the number of calls on with which an overflow is possible. */
  lemma NullPollable(bufferSize: int, n: nat, k: nat)
    ensures (exists s :: Reaches(bufferSize, n, k, s) && Null in s.polled) <==> n >= OverflowCalls(bufferSize, k)
    ensures (exists s :: Reaches(bufferSize, n, k, s) && s.discarded > 0) <==> n >= OverflowCalls(bufferSize, k)
  {
    if n >= OverflowCalls(bufferSize, k) {
      var s := NullPoll(bufferSize, k);
      s := MoreCalls(bufferSize, OverflowCalls(bufferSize, k), k, s, n, k);
      PollsDiscard(bufferSize, n, k, s);
    } else {
      forall s | Reaches(bufferSize, n, k, s) ensures s.polled == [] && s.discarded == 0 {
        var es :| IsRun(bufferSize, n, k, es, s);
        OverflowRun(bufferSize, es);
        RunInv(bufferSize, es);
      }
    }
  }

  lemma PollsDiscard(bufferSize: int, n: nat, k: nat, s: Sys)
    requires Reaches(bufferSize, n, k, s) && Null in s.polled
    ensures s.discarded > 0
  {
    var es :| IsRun(bufferSize, n, k, es, s);
    RunInv(bufferSize, es);
  }

  /** The bound on the queue is reached, for every buffer size. */
  lemma QueueBoundReached(bufferSize: int)
    ensures exists es :: |Run(Initial(bufferSize), es).sessions| == Max(bufferSize, 0) + 1
  {
    var s := Full(bufferSize);
    var es :| IsRun(bufferSize, Max(bufferSize, 0) + 1, 0, es, s);
  }
}
