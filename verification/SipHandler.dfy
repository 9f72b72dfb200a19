/** The tracker as it runs: session objects updated in place in a Call-ID table. Every handler
    is proved to compute the corresponding function of `SipTracker`. */
module SipHandlers {
  import opened SipMessages
  import opened SipTracker

  class SipSession {
    var callId: string
    var requestMethod: Method
    var fromUser: string
    var toUser: string
    var startTime: int
    var firstResponseTime: int
    var setupTime: int
    var establishedTime: int
    var disconnectionStart: int
    var endTime: int
    var state: State
    var messages: seq<Message>

    ghost function View(): Session
      reads this
    {
      Session(callId, requestMethod, fromUser, toUser, startTime, firstResponseTime, setupTime,
              establishedTime, disconnectionStart, endTime, state, messages)
    }

    constructor (request: Message)
      requires request.Request?
      ensures View() == Created(request)
    {
      messages := [request];
      requestMethod, callId := request.verb, request.CallId();
      startTime, state := request.Time(), Initiated;
      fromUser, toUser := request.header.fromUser, request.header.toUser;
      firstResponseTime, setupTime, establishedTime, disconnectionStart, endTime := 0, 0, 0, 0, 0;
    }

    method AddMessage(m: Message)
      modifies this`messages
      ensures messages == old(messages) + [m]
    {
      messages := messages + [m];
    }
  }

  /** What the sender receives: a session object, or a message on its own. */
  datatype Handed = SessionRef(session: SipSession) | Standalone(message: Message)

  lemma AbsorbKeepsCallId(s: Session, m: Message)
    ensures Absorb(s, m).session.callId == s.callId
  {}

  class SipHandler {
    var sessionList: map<string, SipSession>
    var sent: seq<Handed>
    ghost var sends: seq<Sent>             // the same objects with their values when handed over
    ghost var overwritten: seq<Session>
    ghost var dropped: seq<Message>

    ghost function Emitted(): set<SipSession>
      reads this
    {
      set i | 0 <= i < |sent| && sent[i].SessionRef? :: sent[i].session
    }

    /** Distinct keys hold distinct objects. */
    ghost predicate Distinct()
      reads this
    {
      forall c, d :: c in sessionList && d in sessionList && c != d ==> sessionList[c] != sessionList[d]
    }

    /** A session object is handed over at most once, has left the table by then, and never
        changes afterwards. */
    ghost predicate SentOnce()
      reads this, Emitted()
    {
      && (forall i, j :: 0 <= i < j < |sent| && sent[i].SessionRef? && sent[j].SessionRef? ==>
            sent[i].session != sent[j].session)
      && (forall c :: c in sessionList ==> sessionList[c] !in Emitted())
      && |sends| == |sent|
      && (forall i :: 0 <= i < |sent| ==>
            sends[i] == if sent[i].SessionRef? then SessionSent(sent[i].session.View())
                        else MessageSent(sent[i].message))
    }

    ghost predicate Shape()
      reads this, Emitted()
    {
      Distinct() && SentOnce()
    }

    ghost predicate Keyed()
      reads this, sessionList.Values
    {
      forall c :: c in sessionList ==> sessionList[c].callId == c
    }

    ghost function Table(): map<string, Session>
      reads this, sessionList.Values
    {
      map c | c in sessionList :: sessionList[c].View()
    }

    ghost function Model(): Tracker
      reads this, sessionList.Values
    {
      Tracker(Table(), sends, overwritten, dropped)
    }

    ghost predicate Valid()
      reads this, sessionList.Values, Emitted()
    {
      Shape() && Keyed()
    }

    /** The handler has done to `session`, and to the table and the sends, what `e` says. */
    twostate predicate Effected(session: SipSession, e: Effect)
      reads this, session
    {
      && session.View() == e.session
      && overwritten == old(overwritten) && dropped == old(dropped)
      && (e.Live? ==> sessionList == old(sessionList) && sent == old(sent) && sends == old(sends))
      && (e.Ended? ==>
            && sessionList == old(sessionList) - {session.callId}
            && sent == old(sent) + [SessionRef(session)]
            && sends == old(sends) + [SessionSent(e.session)])
    }

    constructor ()
      ensures Valid() && Model() == EMPTY && sessionList == map[]
    {
      sessionList, sent := map[], [];
      sends, overwritten, dropped := [], [], [];
    }

    /** The sender may throw; the exception is caught, so the entry goes away regardless. */
    method TerminateSession(session: SipSession)
      requires Shape() && session.callId in sessionList && sessionList[session.callId] == session
      modifies this`sessionList, this`sent, this`sends
      ensures Shape() && Effected(session, Ended(old(session.View())))
    {
      sent := sent + [SessionRef(session)];
      sends := sends + [SessionSent(session.View())];
      sessionList := sessionList - {session.callId};
    }

    method ProcessProvisional(session: SipSession, m: Message)
      requires m.Response?
      modifies session
      ensures session.View() == Provisional(old(session.View()), m)
    {
      if m.status == 180 || m.status == 183 {
        if session.state == Initiated {
          session.setupTime := m.Time();
          session.state := Provisioned;
        }
      }
    }

    method ProcessInviteOk(session: SipSession, m: Message)
      modifies session
      ensures session.View() == InviteOk(old(session.View()), m)
    {
      if session.state == Initiated {
        session.setupTime := m.Time();
      }
      if session.state == Provisioned || session.state == Initiated {
        session.establishedTime := m.Time();
        session.state := Established;
      }
    }

    /** 200 to CANCEL or BYE, and the last part of 200 to any other non-INVITE request. */
    method ProcessClosingOk(session: SipSession, m: Message, outcome: State)
      requires Shape() && session.callId in sessionList && sessionList[session.callId] == session
      modifies session, this`sessionList, this`sent, this`sends
      ensures Shape()
      ensures Effected(session, Ended(old(session.View()).(endTime := m.Time(), state := outcome)))
    {
      session.endTime := m.Time();
      session.state := outcome;
      TerminateSession(session);
    }

    method ProcessSuccessful(session: SipSession, m: Message)
      requires m.Response?
      requires Shape() && session.callId in sessionList && sessionList[session.callId] == session
      modifies session, this`sessionList, this`sent, this`sends
      ensures Shape() && Effected(session, Successful(old(session.View()), m))
    {
      if m.status == 200 {
        match m.related
        case INVITE =>
          ProcessInviteOk(session, m);
        case CANCEL => ProcessClosingOk(session, m, Canceled);
        case BYE => ProcessClosingOk(session, m, Completed);
        case _ =>
          session.setupTime := m.Time();
          ProcessClosingOk(session, m, Completed);
      }
    }

    method ProcessFailure(session: SipSession, m: Message)
      requires Shape() && session.callId in sessionList && sessionList[session.callId] == session
      modifies session, this`sessionList, this`sent, this`sends
      ensures Shape() && Effected(session, Ended(Failure(old(session.View()), m)))
    {
      session.endTime := m.Time();
      session.state := Failed;
      if session.state != Established {
        session.setupTime := m.Time();
      }
      TerminateSession(session);
    }

    /** The part of response handling that concerns a session found in the table. */
    method ProcessSessionResponse(session: SipSession, m: Message)
      requires m.Response?
      requires Shape() && session.callId in sessionList && sessionList[session.callId] == session
      modifies session, this`sessionList, this`sent, this`sends
      ensures Shape() && Effected(session, Absorb(old(session.View()), m))
    {
      session.AddMessage(m);
      if session.firstResponseTime == 0 {
        session.firstResponseTime := m.Time();
      }
      if 100 <= m.status < 200 {
        ProcessProvisional(session, m);
      } else if 200 <= m.status < 300 {
        ProcessSuccessful(session, m);
      } else if 300 <= m.status < 400 {
        // redirections leave the session alone
      } else if 400 <= m.status < 700 {
        ProcessFailure(session, m);
      }
    }

    /** The FAILED test is in the source; `SipRuns.AckSendsNothing` shows that it never holds. */
    method AckSession(session: SipSession, m: Message)
      requires m.Request? && m.verb.ACK?
      requires Shape() && session.callId in sessionList && sessionList[session.callId] == session
      modifies session, this`sessionList, this`sent, this`sends
      ensures Shape() && Effected(session, Absorb(old(session.View()), m))
    {
      session.AddMessage(m);
      if session.state == Failed {
        TerminateSession(session);
      }
    }

    /** Adds a session, replacing whatever the table holds under its Call-ID. */
    method AddSession(session: SipSession)
      requires Valid() && session !in sessionList.Values && session !in Emitted()
      modifies this`sessionList, this`overwritten
      ensures Valid() && sessionList == old(sessionList)[session.callId := session]
      ensures Table() == old(Table())[session.callId := session.View()]
      ensures overwritten == old(overwritten) +
                (if session.callId in old(sessionList) then [old(Table())[session.callId]] else [])
    {
      ghost var list := sessionList;
      if session.callId in sessionList {
        overwritten := overwritten + [sessionList[session.callId].View()];
      }
      sessionList := sessionList[session.callId := session];
      SentStays(list, session);
    }

    /** A session that was never handed over can enter the table. */
    lemma SentStays(list: map<string, SipSession>, session: SipSession)
      requires sessionList == list[session.callId := session] && session !in Emitted()
      requires forall c :: c in list ==> list[c] !in Emitted()
      ensures forall c :: c in sessionList ==> sessionList[c] !in Emitted()
    {}

    /** From the effect on one entry of the table `list` to the effect on the whole table. */
    lemma TableSettled(before: map<string, Session>, list: map<string, SipSession>, c: string, e: Effect)
      requires c in list && before.Keys == list.Keys
      requires sessionList == if e.Live? then list else list - {c}
      requires list[c].View() == e.session
      requires forall d :: d in list && d != c ==> list[d].View() == before[d]
      ensures Table() == if e.Live? then before[c := e.session] else before - {c}
    {}

    /** Entry point: one captured message. */
    method OnMessage(m: Message)
      requires Valid()
      modifies this, sessionList.Values
      ensures Valid() && Model() == Handle(old(Model()), m)
      ensures old(sent) <= sent
      ensures forall o :: o in sessionList.Values ==> o in old(sessionList.Values) || fresh(o)
    {
      if m.Request? {
        ProcessRequest(m);
      } else {
        ProcessResponse(m);
      }
    }

    method ProcessRequest(m: Message)
      requires Valid() && m.Request?
      modifies this, sessionList.Values
      ensures Valid() && Model() == Handle(old(Model()), m)
      ensures old(sent) <= sent
      ensures forall o :: o in sessionList.Values ==> o in old(sessionList.Values) || fresh(o)
    {
      match m.verb {
        case INVITE => ProcessInvite(m);
        case ACK => ProcessAck(m);
        case BYE => ProcessDisconnectRequest(m);
        case CANCEL => ProcessDisconnectRequest(m);
        case Other(_) => OpenSession(m);
      }
    }

    /** Creates a session for a request and puts it in the table. */
    method OpenSession(m: Message)
      requires Valid() && OpensSession(m) && (m.verb.Other? || m.CallId() !in sessionList)
      modifies this, sessionList.Values
      ensures Valid() && Model() == Handle(old(Model()), m)
      ensures old(sent) <= sent
      ensures forall o :: o in sessionList.Values ==> o in old(sessionList.Values) || fresh(o)
    {
      ghost var before := Table();
      var session := new SipSession(m);
      assert Table() == before;
      AddSession(session);
    }

    method ProcessInvite(m: Message)
      requires Valid() && m.Request? && m.verb.INVITE?
      modifies this, sessionList.Values
      ensures Valid() && Model() == Handle(old(Model()), m)
      ensures old(sent) <= sent
      ensures forall o :: o in sessionList.Values ==> o in old(sessionList.Values) || fresh(o)
    {
      hide Absorb, Settle, SentOnce;
      if m.CallId() !in sessionList {
        OpenSession(m);
      } else {
        ProcessKnownInvite(m);
      }
    }

    method ProcessKnownInvite(m: Message)
      requires Valid() && m.Request? && m.verb.INVITE? && m.CallId() in sessionList
      modifies this, sessionList.Values
      ensures Valid() && Model() == Settle(old(Model()), m.CallId(), Absorb(old(Model()).table[m.CallId()], m))
      ensures old(sent) <= sent
      ensures forall o :: o in sessionList.Values ==> o in old(sessionList.Values) || fresh(o)
    {
      var c, session := m.CallId(), sessionList[m.CallId()];
      ghost var before := Model();
      session.AddMessage(m);
      TableSettled(before.table, sessionList, c, Live(session.View()));
    }

    method ProcessAck(m: Message)
      requires Valid() && m.Request? && m.verb.ACK?
      modifies this, sessionList.Values
      ensures Valid() && Model() == Handle(old(Model()), m)
      ensures old(sent) <= sent
      ensures forall o :: o in sessionList.Values ==> o in old(sessionList.Values) || fresh(o)
    {
      hide Absorb, Settle;
      if m.CallId() in sessionList {
        ProcessKnownAck(m);
      } else {
        dropped := dropped + [m];
      }
    }

    method ProcessKnownAck(m: Message)
      requires Valid() && m.Request? && m.verb.ACK? && m.CallId() in sessionList
      modifies this, sessionList.Values
      ensures Valid() && Model() == Settle(old(Model()), m.CallId(), Absorb(old(Model()).table[m.CallId()], m))
      ensures old(sent) <= sent
      ensures forall o :: o in sessionList.Values ==> o in old(sessionList.Values) || fresh(o)
    {
      hide Absorb, SentOnce;
      var c, session := m.CallId(), sessionList[m.CallId()];
      ghost var before, list, e := Model(), sessionList, Absorb(session.View(), m);
      AbsorbKeepsCallId(session.View(), m);
      AckSession(session, m);
      TableSettled(before.table, list, c, e);
    }

    method ProcessDisconnectRequest(m: Message)
      requires Valid() && IsDisconnect(m)
      modifies this, sessionList.Values
      ensures Valid() && Model() == Handle(old(Model()), m)
      ensures old(sent) <= sent
      ensures forall o :: o in sessionList.Values ==> o in old(sessionList.Values) || fresh(o)
    {
      hide Absorb, Settle;
      if m.CallId() in sessionList {
        ProcessKnownDisconnect(m);
      } else {
        dropped := dropped + [m];
      }
    }

    method Disconnect(session: SipSession, m: Message)
      modifies session
      ensures session.View() ==
              Appended(old(session.View()), m).(disconnectionStart := m.Time(), state := Disconnecting)
    {
      session.AddMessage(m);
      session.disconnectionStart := m.Time();
      session.state := Disconnecting;
    }

    method ProcessKnownDisconnect(m: Message)
      requires Valid() && IsDisconnect(m) && m.CallId() in sessionList
      modifies this, sessionList.Values
      ensures Valid() && Model() == Settle(old(Model()), m.CallId(), Absorb(old(Model()).table[m.CallId()], m))
      ensures old(sent) <= sent
      ensures forall o :: o in sessionList.Values ==> o in old(sessionList.Values) || fresh(o)
    {
      var c, session := m.CallId(), sessionList[m.CallId()];
      ghost var before := Model();
      Disconnect(session, m);
      TableSettled(before.table, sessionList, c, Live(session.View()));
    }

    method ProcessResponse(m: Message)
      requires Valid() && m.Response?
      modifies this, sessionList.Values
      ensures Valid() && Model() == Handle(old(Model()), m)
      ensures old(sent) <= sent
      ensures forall o :: o in sessionList.Values ==> o in old(sessionList.Values) || fresh(o)
    {
      hide Absorb, Settle, SentOnce;
      if m.CallId() in sessionList {
        ProcessKnownResponse(m);
      } else {
        SendStandalone(m);
      }
    }

    method SendStandalone(m: Message)
      requires Valid() && m.Response? && m.CallId() !in sessionList
      modifies this`sent, this`sends
      ensures Valid() && Model() == Handle(old(Model()), m)
      ensures old(sent) <= sent
    {
      sent := sent + [Standalone(m)];
      sends := sends + [MessageSent(m)];
    }

    method ProcessKnownResponse(m: Message)
      requires Valid() && m.Response? && m.CallId() in sessionList
      modifies this, sessionList.Values
      ensures Valid() && Model() == Settle(old(Model()), m.CallId(), Absorb(old(Model()).table[m.CallId()], m))
      ensures old(sent) <= sent
      ensures forall o :: o in sessionList.Values ==> o in old(sessionList.Values) || fresh(o)
    {
      hide Absorb, SentOnce;
      var c, session := m.CallId(), sessionList[m.CallId()];
      ghost var before, list, e := Model(), sessionList, Absorb(session.View(), m);
      AbsorbKeepsCallId(session.View(), m);
      ProcessSessionResponse(session, m);
      TableSettled(before.table, list, c, e);
    }

    /** A whole capture. */
    method OnTrace(trace: seq<Message>)
      requires Valid()
      modifies this, sessionList.Values
      ensures Valid() && Model() == Run(old(Model()), trace)
      ensures old(sent) <= sent
    {
      for i := 0 to |trace|
        invariant Valid() && Model() == Run(old(Model()), trace[..i])
        invariant old(sent) <= sent
        invariant forall o :: o in sessionList.Values ==> o in old(sessionList.Values) || fresh(o)
      {
        assert trace[..i + 1][..i] == trace[..i];
        OnMessage(trace[i]);
      }
      assert trace[..|trace|] == trace;
    }
  }
}
