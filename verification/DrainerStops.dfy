/** What stopping, failing and restarting do to the drainer, under every interleaving with the
    capture thread. */
module DrainerStops {
  import opened DelayedSender
  import opened NullPayloads

  lemma RunLast(s: Sys, es: seq<Event>)
    requires es != []
    ensures Run(s, es) == Step(Run(s, es[..|es| - 1]), es[|es| - 1])
  {}

  // ---------------------------------------------------------------------------------------
  // Stopped
  // ---------------------------------------------------------------------------------------

  /** Whether the drainer has passed its last test before a send. */
  function InHand(s: Sys): nat { if s.drainer.Peeking? || s.drainer.Sending? then 1 else 0 }

  lemma StoppedStep(s: Sys, e: Event)
    requires !s.running && e != Restart
    ensures !Step(s, e).running && s.delivered <= Step(s, e).delivered
    ensures |Step(s, e).delivered| + InHand(Step(s, e)) <= |s.delivered| + InHand(s)
  {}

  /** Once the running flag is clear, and as long as nothing restarts it, at most the one item that
      the drainer was about to send is delivered, whatever else happens. */
  lemma {:induction false} StoppedDelivers(s: Sys, es: seq<Event>)
    requires !s.running && Restart !in es
    ensures var r := Run(s, es);
            && !r.running && s.delivered <= r.delivered
            && |r.delivered| + InHand(r) <= |s.delivered| + InHand(s)
  {
    if es != [] {
      StoppedDelivers(s, es[..|es| - 1]);
      RunLast(s, es);
      StoppedStep(Run(s, es[..|es| - 1]), es[|es| - 1]);
    }
  }

  /** Steps of a stopped drainer until it is at rest. */
  function StepsLeft(d: Drainer): nat {
    match d
    case Waiting => 0
    case Testing(l) => if l.OverSessions? then 4 else 2
    case Guarding(l) => if l.OverSessions? then 3 else 1
    case Removing(l, _) => if l.OverSessions? then 5 else 3
    case Sending(l, _) => if l.OverSessions? then 6 else 4
    case Peeking(l) => if l.OverSessions? then 7 else 5
  }

  lemma StoppedCloser(s: Sys, e: Event)
    requires !s.running && e != Restart
    ensures StepsLeft(Step(s, e).drainer) <= StepsLeft(s.drainer)
    ensures e == Drain && !s.drainer.Waiting? ==> StepsLeft(Step(s, e).drainer) < StepsLeft(s.drainer)
  {}

  /** A stopped drainer is at rest after at most seven steps of its own, whatever the capture thread
      does in between, and stays there. */
  lemma {:induction false} StoppedRests(s: Sys, es: seq<Event>)
    requires !s.running && Restart !in es
    ensures StepsLeft(Run(s, es).drainer) <= Max(StepsLeft(s.drainer) - Count(es, Drain), 0)
    ensures Count(es, Drain) >= 7 ==> Run(s, es).drainer.Waiting?
  {
    if es != [] {
      var front, e := es[..|es| - 1], es[|es| - 1];
      StoppedRests(s, front);
      StoppedDelivers(s, front);
      RunLast(s, es);
      StoppedCloser(Run(s, front), e);
    }
  }

  // ---------------------------------------------------------------------------------------
  // A send that throws
  // ---------------------------------------------------------------------------------------

  lemma {:induction false} RestDelivers(s: Sys, es: seq<Event>)
    requires s.drainer.Waiting? && Wake !in es
    ensures Run(s, es).drainer.Waiting? && Run(s, es).delivered == s.delivered
  {
    if es != [] { RestDelivers(s, es[..|es| - 1]); }
  }

  /** A send that throws ends the pass: until the next wake-up nothing is delivered, whatever else
      happens. The session it was about stays in the queue. */
  lemma FailureEndsPass(s: Sys, es: seq<Event>)
    requires s.drainer.Sending? && Wake !in es
    ensures Step(s, FailSend).sessions == s.sessions
    ensures Run(Step(s, FailSend), es).delivered == s.delivered
  {
    RestDelivers(Step(s, FailSend), es);
  }

  /** The events before a pass that empties the queue. */
  lemma PassAfter(s: Sys, es: seq<Event>)
    requires var r := Run(s, es); r.drainer == Testing(OverSessions) && r.running && r.messages == 0
    ensures var r := Run(s, es);
            Run(s, es + Drains(DrainLength(|r.sessions|))) ==
            r.(drainer := Waiting, sessions := [], delivered := r.delivered + Items(r.sessions))
  {
    hide Run, Drains, Items;
    RunAppend(s, es, Drains(DrainLength(|Run(s, es).sessions|)));
    DrainDelivers(Run(s, es));
  }

  /** The pass after a send that threw delivers the whole queue, the failed session included. */
  lemma RetryDelivers(s: Sys)
    requires s.drainer.Sending? && s.running && s.messages == 0
    ensures Run(s, [FailSend, Wake] + Drains(DrainLength(|s.sessions|))) ==
            s.(drainer := Waiting, sessions := [], delivered := s.delivered + Items(s.sessions))
  {
    RunOne(s, FailSend);
    assert [FailSend, Wake][..1] == [FailSend];
    assert Run(s, [FailSend, Wake]) == s.(drainer := Testing(OverSessions));
    PassAfter(s, [FailSend, Wake]);
  }

  /** A stopped drainer ignores wake-ups; once restarted, the next wake-up delivers the queue. */
  lemma RestartDelivers(s: Sys)
    requires s.drainer.Waiting? && s.messages == 0
    ensures Run(s, [Stop, Wake]) == s.(running := false)
    ensures Run(s, [Stop, Restart, Wake] + Drains(DrainLength(|s.sessions|))) ==
            s.(drainer := Waiting, running := true, sessions := [], delivered := s.delivered + Items(s.sessions))
  {
    RunOne(s, Stop);
    assert [Stop, Wake][..1] == [Stop] && [Stop, Restart][..1] == [Stop];
    assert [Stop, Restart, Wake][..2] == [Stop, Restart];
    assert Run(s, [Stop, Restart]) == Step(Run(s, [Stop]), Restart);
    assert Run(s, [Stop, Restart, Wake]) == s.(drainer := Testing(OverSessions), running := true);
    PassAfter(s, [Stop, Restart, Wake]);
  }
}
