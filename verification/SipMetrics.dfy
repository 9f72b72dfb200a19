/** The per-session delays of the performance-metrics bean, and exactly when they are
    nonnegative on the sessions that the tracker emits. */
module SipMetrics {
  import opened SipMessages
  import opened SipTracker
  import opened SipReading
  import opened SipRuns

  function RegistrationRequestDelay(s: Session): int { s.endTime - s.startTime }

  function SessionDisconnectDelay(s: Session): int { s.endTime - s.disconnectionStart }

  function SessionDurationTime(s: Session): int { s.disconnectionStart - s.establishedTime }

  function SessionRequestDelay(s: Session): int { s.setupTime - s.startTime }

  // ---------------------------------------------------------------------------------------
  // Which messages a recorded time stands for
  // ---------------------------------------------------------------------------------------

  ghost predicate AllPositive(ms: seq<Message>) { forall i :: 0 <= i < |ms| ==> ms[i].Time() > 0 }

  /** With positive times, a recorded first time means that the event occurred. */
  lemma {:induction false} FirstTimeRecorded(ms: seq<Message>, p: Message -> bool)
    requires AllPositive(ms)
    ensures FirstTime(ms, p) != 0 <==> Has(ms, p)
  {
    if ms != [] {
      var front, m := ms[..|ms| - 1], ms[|ms| - 1];
      assert ms == front + [m];
      HasSnoc(front, m, p);
      FirstTimeRecorded(front, p);
    }
  }

  lemma {:induction false} LastTimeRecorded(ms: seq<Message>, p: Message -> bool)
    requires AllPositive(ms)
    ensures LastTime(ms, p) != 0 <==> Has(ms, p)
  {
    if ms != [] {
      var front, m := ms[..|ms| - 1], ms[|ms| - 1];
      assert ms == front + [m];
      HasSnoc(front, m, p);
      LastTimeRecorded(front, p);
    }
  }

  lemma {:induction false} TalkingPositive(ms: seq<Message>)
    requires AllPositive(ms)
    ensures AllPositive(Talking(ms))
  {
    if ms != [] { TalkingPositive(ms[..|ms| - 1]); }
  }

  lemma {:induction false} PacketsPositive(trace: seq<Message>, c: string)
    requires Ordered(trace)
    ensures AllPositive(Packets(trace, c))
  {
    if trace != [] { PacketsPositive(trace[..|trace| - 1], c); }
  }

  /** The messages of an emitted session come from the trace, so their times are positive. */
  lemma EmittedPositive(trace: seq<Message>, i: nat)
    requires Ordered(trace)
    requires i < |Run(EMPTY, trace).sends| && Run(EMPTY, trace).sends[i].SessionSent?
    ensures AllPositive(Run(EMPTY, trace).sends[i].session.messages)
  {
    hide Packets, Run;
    var x := Run(EMPTY, trace).sends[i];
    var whole, part := Packets(trace, x.CallId()), x.session.messages;
    RunUnbroken(trace);
    PacketsPositive(trace, x.CallId());
    var k :| 0 <= k <= |whole| && EndsWith(whole[..k], part);
    assert forall j :: 0 <= j < |part| ==> part[j] == whole[k - |part| + j];
  }

  /** A ringing or an answer before any BYE or CANCEL, or an ending that records a set-up time. */
  ghost predicate SetUp(ms: seq<Message>)
    requires ms != []
  {
    Has(Talking(ms), IsSetup) || !IsClosingOk(ms[|ms| - 1])
  }

  /** Packet times are positive and nondecreasing. Registration and disconnect delays are then
      never negative; the request delay is nonnegative exactly when the session was set up, and
      the duration exactly when a BYE or CANCEL was seen or the call was never answered. */
  lemma DelaysOfEmittedSessions(trace: seq<Message>, i: nat)
    requires Ordered(trace)
    requires i < |Run(EMPTY, trace).sends| && Run(EMPTY, trace).sends[i].SessionSent?
    ensures var s := Run(EMPTY, trace).sends[i].session;
            && RegistrationRequestDelay(s) >= 0
            && SessionDisconnectDelay(s) >= 0
            && s.messages != []
            && (SessionRequestDelay(s) >= 0 <==> SetUp(s.messages))
            && (SessionDurationTime(s) >= 0 <==>
                  Has(s.messages, IsDisconnect) || !Has(Talking(s.messages), IsInviteOk))
  {
    hide Run, Has, FirstTime, LastTime, Talking;
    var s := Run(EMPTY, trace).sends[i].session;
    var ms := s.messages;
    RunTimes(trace);
    RunFaithful(trace);
    assert SentShape(Run(EMPTY, trace).sends[i]);
    EmittedPositive(trace, i);
    TalkingPositive(ms);
    FirstTimeRecorded(Talking(ms), IsSetup);
    FirstTimeRecorded(Talking(ms), IsInviteOk);
    LastTimeRecorded(ms, IsDisconnect);
    assert ms[|ms| - 1].Time() > 0;
  }

  /** What the delays are, in the messages of an emitted session: from the request that opened it to
      the response that ended it, from the last BYE or CANCEL to that end, from the first 200 to an
      INVITE to the last BYE or CANCEL, and from the opening request to the first ringing or answer
      before any BYE or CANCEL, or to the end when that is no 200 to a BYE or CANCEL. */
  lemma DelaysInMessages(trace: seq<Message>, i: nat)
    requires i < |Run(EMPTY, trace).sends| && Run(EMPTY, trace).sends[i].SessionSent?
    ensures var s := Run(EMPTY, trace).sends[i].session;
            var ms := s.messages;
            && ms != [] && ms[0].Request? && IsFinal(ms[|ms| - 1])
            && var first, last := ms[0].Time(), ms[|ms| - 1].Time();
               && RegistrationRequestDelay(s) == last - first
               && SessionDisconnectDelay(s) == last - LastTime(ms, IsDisconnect)
               && SessionDurationTime(s) == LastTime(ms, IsDisconnect) - FirstTime(Talking(ms), IsInviteOk)
               && SessionRequestDelay(s) ==
                  (if IsClosingOk(ms[|ms| - 1]) then FirstTime(Talking(ms), IsSetup) else last) - first
  {
    hide Run, Has, FirstTime, LastTime, Talking;
    RunFaithful(trace);
    assert SentShape(Run(EMPTY, trace).sends[i]);
  }

  // ---------------------------------------------------------------------------------------
  // Calls with a negative delay
  // ---------------------------------------------------------------------------------------

  function At(c: string, time: int): Header {
    Header(c, time, "", "", Endpoint("", 0), Endpoint("", 0))
  }

  /** A call of three messages, of which the first opens a session and the last ends it. */
  lemma RunThree(m0: Message, m1: Message, m2: Message, s1: Session, s2: Session)
    requires m0.Request? && m0.verb.INVITE? && !(m1.Request? && m1.verb.Other?) && !(m2.Request? && m2.verb.Other?)
    requires m0.CallId() == m1.CallId() == m2.CallId() == s2.callId
    requires Absorb(Created(m0), m1) == Live(s1) && Absorb(s1, m2) == Ended(s2)
    ensures Run(EMPTY, [m0, m1, m2]).sends == [SessionSent(s2)]
  {
    hide Absorb, Created;
    assert [m0, m1, m2][..2] == [m0, m1] && [m0, m1][..1] == [m0] && [m0][..0] == [];
    assert Run(EMPTY, [m0]) == Handle(EMPTY, m0);
    assert Run(EMPTY, [m0, m1]) == Handle(Run(EMPTY, [m0]), m1);
    assert Handle(EMPTY, m0).table == map[m0.CallId() := Created(m0)];
    assert Run(EMPTY, [m0, m1]).table[m0.CallId()] == s1;
  }

  /** INVITE, CANCEL, 200 to the CANCEL: no set-up time, and a negative request delay. */
  lemma CanceledCall(c: string)
    ensures var trace := [Request(At(c, 1), INVITE), Request(At(c, 2), CANCEL), Response(At(c, 3), 200, CANCEL)];
            var sends := Run(EMPTY, trace).sends;
            Ordered(trace) && |sends| == 1 && sends[0].SessionSent? && SessionRequestDelay(sends[0].session) == -1
  {
    var m0, m1, m2 := Request(At(c, 1), INVITE), Request(At(c, 2), CANCEL), Response(At(c, 3), 200, CANCEL);
    var s1 := Appended(Created(m0), m1).(disconnectionStart := 2, state := Disconnecting);
    var s2 := Answered(s1, m2).(endTime := 3, state := Canceled);
    RunThree(m0, m1, m2, s1, s2);
  }

  /** INVITE, 200, then a failure of a re-INVITE: established, never disconnected, and a negative
      duration. */
  lemma FailedReInvite(c: string)
    ensures var trace := [Request(At(c, 1), INVITE), Response(At(c, 2), 200, INVITE), Response(At(c, 3), 491, INVITE)];
            var sends := Run(EMPTY, trace).sends;
            Ordered(trace) && |sends| == 1 && sends[0].SessionSent? && SessionDurationTime(sends[0].session) == -2
  {
    var m0, m1, m2 := Request(At(c, 1), INVITE), Response(At(c, 2), 200, INVITE), Response(At(c, 3), 491, INVITE);
    var s1 := Answered(Created(m0), m1).(setupTime := 2, establishedTime := 2, state := Established);
    var s2 := Answered(s1, m2).(endTime := 3, state := Failed, setupTime := 3);
    RunThree(m0, m1, m2, s1, s2);
  }
}
