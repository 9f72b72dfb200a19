/** Whole-run theorems about the tracker: interleaving independence, message conservation,
    forward-only states and the order of the recorded times. */
module SipRuns {
  import opened Wrappers
  import opened SipMessages
  import opened SipTracker
  import opened SipReading

  // ---------------------------------------------------------------------------------------
  // Interleaving independence
  // ---------------------------------------------------------------------------------------

  ghost function Packets(trace: seq<Message>, c: string): (r: seq<Message>) {
    if trace == [] then []
    else
      var front, m := trace[..|trace| - 1], trace[|trace| - 1];
      if m.CallId() == c then Packets(front, c) + [m] else Packets(front, c)
  }

  ghost function SendsOf(sends: seq<Sent>, c: string): (r: seq<Sent>) {
    if sends == [] then []
    else
      var front, x := sends[..|sends| - 1], sends[|sends| - 1];
      if x.CallId() == c then SendsOf(front, c) + [x] else SendsOf(front, c)
  }

  ghost function EntryOf(t: Tracker, c: string): Option<Session> {
    if c in t.table then Some(t.table[c]) else None
  }

  /** Two trackers agree on one Call-ID. */
  ghost predicate SameCall(t: Tracker, u: Tracker, c: string) {
    EntryOf(t, c) == EntryOf(u, c) && SendsOf(t.sends, c) == SendsOf(u.sends, c)
  }

  lemma SendsOfSnoc(sends: seq<Sent>, x: Sent, c: string)
    ensures SendsOf(sends + [x], c) ==
            if x.CallId() == c then SendsOf(sends, c) + [x] else SendsOf(sends, c)
  {
    assert (sends + [x])[..|sends|] == sends;
  }

  /** What one message does to the table and to the log of sends. */
  lemma HandleEntry(t: Tracker, m: Message, c: string)
    requires Faithful(t)
    ensures m.CallId() != c ==> SameCall(t, Handle(t, m), c)
    ensures m.CallId() == c ==>
              var before, after := EntryOf(t, c), EntryOf(Handle(t, m), c);
              if m.Request? && m.verb.Other? then
                after == Some(Created(m)) && SendsOf(Handle(t, m).sends, c) == SendsOf(t.sends, c)
              else if before.Some? then
                match Absorb(before.value, m)
                case Live(s) => after == Some(s) && SendsOf(Handle(t, m).sends, c) == SendsOf(t.sends, c)
                case Ended(s) =>
                  after == None && SendsOf(Handle(t, m).sends, c) == SendsOf(t.sends, c) + [SessionSent(s)]
              else if m.Response? then
                after == None && SendsOf(Handle(t, m).sends, c) == SendsOf(t.sends, c) + [MessageSent(m)]
              else
                after == (if m.verb.INVITE? then Some(Created(m)) else None) &&
                SendsOf(Handle(t, m).sends, c) == SendsOf(t.sends, c)
  {
    hide Absorb, LiveShape, ClosedShape, Created;
    var d := m.CallId();
    if m.Request? && m.verb.Other? {
    } else if d in t.table {
      AbsorbShape(d, t.table[d], m);
      SendsOfSnoc(t.sends, SessionSent(Absorb(t.table[d], m).session), c);
    } else if m.Response? {
      SendsOfSnoc(t.sends, MessageSent(m), c);
    }
  }

  /** Interleaving independence: for every trace and every Call-ID, the table entry and the
      sequence of sends for that Call-ID are those of the Call-ID's own packets run alone. */
  lemma {:induction false} RunIndependent(trace: seq<Message>, c: string)
    ensures SameCall(Run(EMPTY, trace), Run(EMPTY, Packets(trace, c)), c)
  {
    if trace != [] {
      var front, m := trace[..|trace| - 1], trace[|trace| - 1];
      RunIndependent(front, c);
      RunFaithful(front);
      RunFaithful(Packets(front, c));
      HandleEntry(Run(EMPTY, front), m, c);
      if m.CallId() == c {
        var own := Packets(front, c) + [m];
        assert own[..|own| - 1] == Packets(front, c);
        HandleEntry(Run(EMPTY, Packets(front, c)), m, c);
      }
    }
  }

  // ---------------------------------------------------------------------------------------
  // Order of the sends
  // ---------------------------------------------------------------------------------------

  /** A message sends at most one object, after all others, and it is one that ends with the message. */
  lemma HandleSends(t: Tracker, m: Message)
    ensures var sends := Handle(t, m).sends;
            || sends == t.sends
            || (|sends| == |t.sends| + 1 && t.sends <= sends &&
                match sends[|t.sends|]
                case SessionSent(s) => s.messages != [] && s.messages[|s.messages| - 1] == m
                case MessageSent(x) => x == m)
  {}

  /** Sends are never taken back or reordered: those after any part of the trace are the first of
      those after the whole, and there are at most as many as messages. */
  lemma {:induction false} SendsGrow(trace: seq<Message>, k: nat)
    requires k <= |trace|
    ensures Run(EMPTY, trace[..k]).sends <= Run(EMPTY, trace).sends
    ensures |Run(EMPTY, trace).sends| <= |Run(EMPTY, trace[..k]).sends| + |trace| - k
  {
    hide Handle;
    if k == |trace| {
      assert trace[..k] == trace;
    } else {
      var front := trace[..|trace| - 1];
      assert front[..k] == trace[..k];
      SendsGrow(front, k);
      HandleSends(Run(EMPTY, front), trace[|trace| - 1]);
    }
  }

  // ---------------------------------------------------------------------------------------
  // Message conservation
  // ---------------------------------------------------------------------------------------

  ghost function LiveMessages(table: map<string, Session>): multiset<Message> {
    if table == map[] then multiset{}
    else
      var c :| c in table;
      multiset(table[c].messages) + LiveMessages(table - {c})
  }

  ghost function EmittedMessages(sends: seq<Sent>): multiset<Message> {
    if sends == [] then multiset{}
    else
      var x := sends[|sends| - 1];
      EmittedMessages(sends[..|sends| - 1]) +
      (if x.SessionSent? then multiset(x.session.messages) else multiset{})
  }

  ghost function StandaloneMessages(sends: seq<Sent>): multiset<Message> {
    if sends == [] then multiset{}
    else
      var x := sends[|sends| - 1];
      StandaloneMessages(sends[..|sends| - 1]) + (if x.MessageSent? then multiset{x.message} else multiset{})
  }

  ghost function SessionMessages(sessions: seq<Session>): multiset<Message> {
    if sessions == [] then multiset{}
    else SessionMessages(sessions[..|sessions| - 1]) + multiset(sessions[|sessions| - 1].messages)
  }

  /** Everything the tracker can account for. */
  ghost function Ledger(t: Tracker): multiset<Message> {
    LiveMessages(t.table) + EmittedMessages(t.sends) + StandaloneMessages(t.sends) +
    SessionMessages(t.overwritten) + multiset(t.dropped)
  }

  /** The sum over the table does not depend on the order in which entries are picked. */
  lemma {:induction false} LiveWithout(table: map<string, Session>, c: string)
    requires c in table
    ensures LiveMessages(table) == multiset(table[c].messages) + LiveMessages(table - {c})
    decreases |table|
  {
    var d :| d in table && LiveMessages(table) == multiset(table[d].messages) + LiveMessages(table - {d});
    if d != c {
      LiveWithout(table - {d}, c);
      LiveWithout(table - {c}, d);
      assert table - {d} - {c} == table - {c} - {d};
    }
  }

  lemma LiveUpdated(table: map<string, Session>, c: string, s: Session)
    ensures LiveMessages(table[c := s]) == LiveMessages(table - {c}) + multiset(s.messages)
  {
    hide LiveMessages;
    LiveWithout(table[c := s], c);
    assert table[c := s] - {c} == table - {c};
  }

  lemma SendSnoc(sends: seq<Sent>, x: Sent)
    ensures EmittedMessages(sends + [x]) ==
            EmittedMessages(sends) + (if x.SessionSent? then multiset(x.session.messages) else multiset{})
    ensures StandaloneMessages(sends + [x]) ==
            StandaloneMessages(sends) + (if x.MessageSent? then multiset{x.message} else multiset{})
  {
    assert (sends + [x])[..|sends|] == sends;
  }

  lemma SessionsSnoc(sessions: seq<Session>, s: Session)
    ensures SessionMessages(sessions + [s]) == SessionMessages(sessions) + multiset(s.messages)
  {
    assert (sessions + [s])[..|sessions|] == sessions;
  }

  lemma AbandonedMessages(t: Tracker, c: string)
    ensures c !in t.table ==> t.table - {c} == t.table
    ensures c in t.table ==>
              LiveMessages(t.table) == multiset(t.table[c].messages) + LiveMessages(t.table - {c})
  {
    if c in t.table { LiveWithout(t.table, c); }
  }

  lemma LiveLedger(t: Tracker, m: Message, c: string, s: Session)
    requires c in t.table && s.messages == t.table[c].messages + [m]
    ensures Ledger(t.(table := t.table[c := s])) == Ledger(t) + multiset{m}
  {
    LiveWithout(t.table, c);
    LiveUpdated(t.table, c, s);
  }

  lemma EndedLedger(t: Tracker, m: Message, c: string, s: Session)
    requires c in t.table && s.messages == t.table[c].messages + [m]
    ensures Ledger(t.(table := t.table - {c}, sends := t.sends + [SessionSent(s)])) == Ledger(t) + multiset{m}
  {
    LiveWithout(t.table, c);
    SendSnoc(t.sends, SessionSent(s));
  }

  lemma AbsorbLedger(t: Tracker, m: Message)
    requires m.CallId() in t.table && !(m.Request? && m.verb.Other?)
    requires LiveShape(m.CallId(), t.table[m.CallId()])
    ensures Ledger(Handle(t, m)) == Ledger(t) + multiset{m}
  {
    var c := m.CallId();
    AbsorbShape(c, t.table[c], m);
    match Absorb(t.table[c], m)
    case Live(s) => LiveLedger(t, m, c, s);
    case Ended(s) => EndedLedger(t, m, c, s);
  }

  lemma OpenLedger(t: Tracker, m: Message)
    requires OpensSession(m) && (m.verb.Other? || m.CallId() !in t.table)
    ensures Ledger(Handle(t, m)) == Ledger(t) + multiset{m}
  {
    hide LiveMessages, SessionMessages, StandaloneMessages, EmittedMessages;
    var c := m.CallId();
    AbandonedMessages(t, c);
    LiveUpdated(t.table, c, Created(m));
    if c in t.table { SessionsSnoc(t.overwritten, t.table[c]); }
  }

  lemma StandaloneLedger(t: Tracker, m: Message)
    requires m.CallId() !in t.table && !OpensSession(m)
    ensures Ledger(Handle(t, m)) == Ledger(t) + multiset{m}
  {
    hide LiveMessages, SessionMessages, StandaloneMessages, EmittedMessages;
    if m.Response? { SendSnoc(t.sends, MessageSent(m)); }
  }

  lemma HandleLedger(t: Tracker, m: Message)
    requires m.CallId() in t.table ==> LiveShape(m.CallId(), t.table[m.CallId()])
    ensures Ledger(Handle(t, m)) == Ledger(t) + multiset{m}
  {
    if m.Request? && m.verb.Other? {
      OpenLedger(t, m);
    } else if m.CallId() in t.table {
      AbsorbLedger(t, m);
    } else if OpensSession(m) {
      OpenLedger(t, m);
    } else {
      StandaloneLedger(t, m);
    }
  }

  lemma EmptyLedger()
    ensures Ledger(EMPTY) == multiset{}
  {}

  /** Conservation: after any trace, the messages handled are exactly those in live sessions,
      in emitted sessions, sent on their own, in overwritten sessions, and dropped. */
  lemma {:induction false} RunConserves(trace: seq<Message>)
    ensures Ledger(Run(EMPTY, trace)) == multiset(trace)
  {
    hide Ledger, Handle, Faithful;
    EmptyLedger();
    if trace != [] {
      var front, m := trace[..|trace| - 1], trace[|trace| - 1];
      RunConserves(front);
      RunFaithful(front);
      HandleLedger(Run(EMPTY, front), m);
      assert trace == front + [m];
    }
  }

  // ---------------------------------------------------------------------------------------
  // Sessions are unbroken stretches of a call
  // ---------------------------------------------------------------------------------------

  ghost predicate EndsWith(whole: seq<Message>, part: seq<Message>) {
    |part| <= |whole| && whole[|whole| - |part|..] == part
  }

  ghost predicate Stretch(whole: seq<Message>, part: seq<Message>) {
    exists i :: 0 <= i <= |whole| && EndsWith(whole[..i], part)
  }

  /** Live sessions hold everything captured for their Call-ID since they began; emitted sessions
      hold an unbroken stretch of it. */
  ghost predicate Unbroken(t: Tracker, trace: seq<Message>) {
    && (forall c :: c in t.table ==> EndsWith(Packets(trace, c), t.table[c].messages))
    && (forall i :: 0 <= i < |t.sends| && t.sends[i].SessionSent? ==>
          Stretch(Packets(trace, t.sends[i].CallId()), t.sends[i].session.messages))
  }

  lemma PacketsSnoc(trace: seq<Message>, m: Message, c: string)
    ensures Packets(trace + [m], c) == if m.CallId() == c then Packets(trace, c) + [m] else Packets(trace, c)
  {
    assert (trace + [m])[..|trace|] == trace;
  }

  lemma StretchStays(whole: seq<Message>, more: seq<Message>, part: seq<Message>)
    requires Stretch(whole, part)
    ensures Stretch(whole + more, part)
  {
    var i :| 0 <= i <= |whole| && EndsWith(whole[..i], part);
    assert (whole + more)[..i] == whole[..i];
  }

  lemma EndsWithSnoc(whole: seq<Message>, part: seq<Message>, m: Message)
    requires EndsWith(whole, part)
    ensures EndsWith(whole + [m], part + [m]) && EndsWith(whole + [m], [m])
    ensures Stretch(whole + [m], part + [m])
  {
    assert (whole + [m])[..|whole| + 1] == whole + [m];
  }

  lemma EntryUnbroken(t: Tracker, trace: seq<Message>, m: Message, c: string)
    requires Faithful(t) && Unbroken(t, trace) && c in Handle(t, m).table
    ensures EndsWith(Packets(trace + [m], c), Handle(t, m).table[c].messages)
  {
    hide Absorb, LiveShape, ClosedShape, Packets, EndsWith, Stretch, Handle;
    HandleEntry(t, m, c);
    PacketsSnoc(trace, m, c);
    if m.CallId() != c {
      assert EntryOf(Handle(t, m), c) == EntryOf(t, c);
    } else if c in t.table && !(m.Request? && m.verb.Other?) {
      AbsorbShape(c, t.table[c], m);
      EndsWithSnoc(Packets(trace, c), t.table[c].messages, m);
    } else {
      EmptyEnd(Packets(trace, c));
      EndsWithSnoc(Packets(trace, c), [], m);
    }
  }

  lemma EmptyEnd(whole: seq<Message>)
    ensures EndsWith(whole, [])
  {}

  lemma SendUnbroken(t: Tracker, trace: seq<Message>, m: Message, i: nat)
    requires Faithful(t) && Unbroken(t, trace)
    requires i < |Handle(t, m).sends| && Handle(t, m).sends[i].SessionSent?
    ensures Stretch(Packets(trace + [m], Handle(t, m).sends[i].CallId()), Handle(t, m).sends[i].session.messages)
  {
    hide Absorb, LiveShape, ClosedShape, Packets, EndsWith, Stretch;
    var x, c := Handle(t, m).sends[i], m.CallId();
    PacketsSnoc(trace, m, x.CallId());
    if i < |t.sends| {
      assert x == t.sends[i];
      StretchStays(Packets(trace, x.CallId()), [m], x.session.messages);
    } else {
      AbsorbShape(c, t.table[c], m);
      EndsWithSnoc(Packets(trace, c), t.table[c].messages, m);
    }
  }

  /** Over any run, sessions are unbroken stretches of their Call-ID's packets. */
  lemma {:induction false} RunUnbroken(trace: seq<Message>)
    ensures Unbroken(Run(EMPTY, trace), trace)
  {
    if trace != [] {
      var front, m := trace[..|trace| - 1], trace[|trace| - 1];
      var t := Run(EMPTY, front);
      RunUnbroken(front);
      RunFaithful(front);
      assert trace == front + [m];
      hide Faithful, Handle, Stretch, EndsWith, Packets;
      forall c | c in Handle(t, m).table ensures EndsWith(Packets(trace, c), Handle(t, m).table[c].messages) {
        EntryUnbroken(t, front, m, c);
      }
      forall i | 0 <= i < |Handle(t, m).sends| && Handle(t, m).sends[i].SessionSent?
        ensures Stretch(Packets(trace, Handle(t, m).sends[i].CallId()), Handle(t, m).sends[i].session.messages)
      {
        SendUnbroken(t, front, m, i);
      }
    }
  }

  // ---------------------------------------------------------------------------------------
  // States only move forward
  // ---------------------------------------------------------------------------------------

  function Rank(s: State): nat {
    match s
    case Initiated => 0
    case Provisioned => 1
    case Established => 2
    case Disconnecting => 3
    case _ => 4
  }

  /** How one session may follow another while the call goes on. */
  ghost predicate Follows(s: Session, s1: Session) {
    && Rank(s.state) <= Rank(s1.state) < 4
    && s1.startTime == s.startTime
    && (s.firstResponseTime != 0 ==> s1.firstResponseTime == s.firstResponseTime)
    && (Rank(s.state) >= 1 ==> s1.setupTime == s.setupTime)
    && (Rank(s.state) >= 2 ==> s1.establishedTime == s.establishedTime)
  }

  lemma AbsorbFollows(s: Session, m: Message)
    requires Rank(s.state) < 4 && Absorb(s, m).Live?
    ensures Follows(s, Absorb(s, m).session)
  {}

  /** As long as no request of a non-dialog method and no final response for the Call-ID goes
      by, its session stays in the table, collects exactly its own packets, keeps the times it
      already has, and never moves back. */
  lemma {:induction false} RunForward(t: Tracker, trace: seq<Message>, c: string)
    requires Faithful(t) && c in t.table
    requires forall i :: 0 <= i < |trace| && trace[i].CallId() == c ==>
               !IsFinal(trace[i]) && !(trace[i].Request? && trace[i].verb.Other?)
    ensures c in Run(t, trace).table
    ensures Run(t, trace).table[c].messages == t.table[c].messages + Packets(trace, c)
    ensures Follows(t.table[c], Run(t, trace).table[c])
  {
    hide Handle, LiveShape, ClosedShape;
    if trace == [] {
      LiveRank(c, t.table[c]);
    } else {
      var front, m := trace[..|trace| - 1], trace[|trace| - 1];
      RunForward(t, front, c);
      RunKeepsFaithful(t, front);
      ForwardStep(t.table[c], Run(t, front), m, c);
    }
  }

  lemma {:induction false} RunKeepsFaithful(t: Tracker, trace: seq<Message>)
    requires Faithful(t)
    ensures Faithful(Run(t, trace))
  {
    if trace != [] {
      RunKeepsFaithful(t, trace[..|trace| - 1]);
      HandleFaithful(Run(t, trace[..|trace| - 1]), trace[|trace| - 1]);
    }
  }

  lemma ForwardStep(s: Session, t: Tracker, m: Message, c: string)
    requires Faithful(t) && c in t.table && Follows(s, t.table[c])
    requires m.CallId() == c ==> !IsFinal(m) && !(m.Request? && m.verb.Other?)
    ensures c in Handle(t, m).table && Follows(s, Handle(t, m).table[c])
    ensures Handle(t, m).table[c].messages ==
            t.table[c].messages + if m.CallId() == c then [m] else []
  {
    if m.CallId() == c {
      AbsorbShape(c, t.table[c], m);
      AbsorbFollows(t.table[c], m);
    } else {
      HandleEntry(t, m, c);
    }
  }

  /** The FAILED test in the ACK handler never succeeds: an ACK sends nothing. */
  lemma AckSendsNothing(trace: seq<Message>, m: Message)
    requires m.Request? && m.verb.ACK?
    ensures Run(EMPTY, trace + [m]).sends == Run(EMPTY, trace).sends
  {
    RunFaithful(trace);
    assert (trace + [m])[..|trace|] == trace;
    var t := Run(EMPTY, trace);
    if m.CallId() in t.table { AbsorbShape(m.CallId(), t.table[m.CallId()], m); }
  }

  // ---------------------------------------------------------------------------------------
  // Order of times
  // ---------------------------------------------------------------------------------------

  /** Packets are stamped with positive times that never decrease. */
  ghost predicate Ordered(trace: seq<Message>) {
    && (forall i :: 0 <= i < |trace| ==> trace[i].Time() > 0)
    && (forall i, j :: 0 <= i <= j < |trace| ==> trace[i].Time() <= trace[j].Time())
  }

  ghost predicate LiveTimes(s: Session, now: int) {
    && 0 < s.startTime <= now
    && (s.firstResponseTime != 0 ==> s.startTime <= s.firstResponseTime <= now)
    && (s.setupTime != 0 ==> 0 < s.firstResponseTime <= s.setupTime <= now)
    && (s.establishedTime != 0 ==> 0 < s.setupTime <= s.establishedTime <= now)
    && (s.disconnectionStart != 0 <==> s.state.Disconnecting?)
    && (s.disconnectionStart != 0 ==>
          s.startTime <= s.disconnectionStart <= now && s.establishedTime <= s.disconnectionStart)
    && (s.state.Provisioned? ==> s.setupTime != 0)
    && (s.state.Initiated? ==> s.setupTime == 0)
    && (s.establishedTime != 0 ==> Rank(s.state) >= 2)
  }

  ghost predicate ClosedTimes(s: Session) {
    && 0 < s.startTime <= s.firstResponseTime <= s.endTime
    && (s.setupTime != 0 ==> s.firstResponseTime <= s.setupTime <= s.endTime)
    && (s.establishedTime != 0 ==> s.startTime <= s.establishedTime <= s.endTime)
    && (s.disconnectionStart != 0 ==>
          s.startTime <= s.disconnectionStart <= s.endTime && 0 <= s.establishedTime <= s.disconnectionStart)
  }

  lemma AbsorbRequestTimes(s: Session, m: Message, now: int)
    requires Rank(s.state) < 4 && m.Request?
    requires LiveTimes(s, now) && now <= m.Time()
    ensures Absorb(s, m).Live? && LiveTimes(Absorb(s, m).session, m.Time())
  {}

  lemma AbsorbTimes(s: Session, m: Message, now: int)
    requires Rank(s.state) < 4
    requires LiveTimes(s, now) && now <= m.Time()
    ensures match Absorb(s, m)
            case Live(s1) => LiveTimes(s1, m.Time())
            case Ended(s1) => ClosedTimes(s1) && s1.endTime == m.Time()
  {
    if m.Request? {
      AbsorbRequestTimes(s, m, now);
    } else {
      AnsweredTimes(s, m, now);
      ResponseTimes(Answered(s, m), s, m);
    }
  }

  lemma AnsweredTimes(s: Session, m: Message, now: int)
    requires m.Response? && LiveTimes(s, now) && now <= m.Time()
    ensures LiveTimes(Answered(s, m), m.Time()) && 0 < Answered(s, m).firstResponseTime
    ensures Rank(s.state) < 4 ==> Rank(Answered(s, m).state) < 4
  {}

  lemma ResponseTimes(s1: Session, s: Session, m: Message)
    requires m.Response? && s1 == Answered(s, m) && Rank(s1.state) < 4
    requires LiveTimes(s1, m.Time()) && 0 < s1.firstResponseTime
    ensures match Absorb(s, m)
            case Live(s2) => LiveTimes(s2, m.Time())
            case Ended(s2) => ClosedTimes(s2) && s2.endTime == m.Time()
  {
    hide Answered;
  }

  ghost predicate TimesKept(t: Tracker, now: int) {
    && (forall c :: c in t.table ==> LiveTimes(t.table[c], now))
    && (forall i :: 0 <= i < |t.sends| && t.sends[i].SessionSent? ==> ClosedTimes(t.sends[i].session))
  }

  lemma EntryTimes(t: Tracker, m: Message, now: int, c: string)
    requires Faithful(t) && TimesKept(t, now) && now <= m.Time() && 0 < m.Time()
    requires c in Handle(t, m).table
    ensures LiveTimes(Handle(t, m).table[c], m.Time())
  {
    HandleEntry(t, m, c);
    if m.CallId() != c {
      assert t.table[c] == Handle(t, m).table[c];
    } else if c in t.table && !(m.Request? && m.verb.Other?) {
      LiveRank(c, t.table[c]);
      AbsorbTimes(t.table[c], m, now);
    }
  }

  lemma LiveRank(c: string, s: Session)
    requires LiveShape(c, s)
    ensures Rank(s.state) < 4
  {}

  lemma SendTimes(t: Tracker, m: Message, now: int)
    requires Faithful(t) && TimesKept(t, now) && now <= m.Time()
    ensures var sends := Handle(t, m).sends;
            sends == t.sends ||
            (|sends| == |t.sends| + 1 && sends[..|t.sends|] == t.sends &&
             (sends[|t.sends|].SessionSent? ==> ClosedTimes(sends[|t.sends|].session)))
  {
    var c := m.CallId();
    if c in t.table && !(m.Request? && m.verb.Other?) {
      LiveRank(c, t.table[c]);
      AbsorbTimes(t.table[c], m, now);
    }
  }

  lemma HandleTimes(t: Tracker, m: Message, now: int)
    requires Faithful(t) && TimesKept(t, now) && now <= m.Time() && 0 < m.Time()
    ensures TimesKept(Handle(t, m), m.Time())
  {
    forall c | c in Handle(t, m).table ensures LiveTimes(Handle(t, m).table[c], m.Time()) {
      EntryTimes(t, m, now, c);
    }
    SendTimes(t, m, now);
    forall i | 0 <= i < |t.sends| && Handle(t, m).sends[i].SessionSent?
      ensures ClosedTimes(Handle(t, m).sends[i].session)
    {
      assert Handle(t, m).sends[i] == t.sends[i];
    }
  }

  /** Safety over whole runs with nondecreasing positive packet times. */
  lemma {:induction false} RunTimes(trace: seq<Message>)
    requires Ordered(trace)
    ensures TimesKept(Run(EMPTY, trace), if trace == [] then 0 else trace[|trace| - 1].Time())
  {
    if trace != [] {
      var front, m := trace[..|trace| - 1], trace[|trace| - 1];
      RunTimes(front);
      RunFaithful(front);
      HandleTimes(Run(EMPTY, front), m, if front == [] then 0 else front[|front| - 1].Time());
    }
  }
}
