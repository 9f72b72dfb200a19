/** What the passive tracker does to its Call-ID table, written over values.
    `SipHandler` proves that the mutable handler computes exactly these functions. */
module SipTracker {
  import opened SipMessages

  datatype State =
    | Initiated | Provisioned | Established | Disconnecting
    | Completed | Failed | Canceled | Timeout

  datatype Session = Session(
    callId: string, verb: Method, fromUser: string, toUser: string,
    startTime: int, firstResponseTime: int, setupTime: int, establishedTime: int,
    disconnectionStart: int, endTime: int, state: State, messages: seq<Message>)

  /** One object handed to the sender, with the value it had at that moment. */
  datatype Sent = SessionSent(session: Session) | MessageSent(message: Message)
  {
    function CallId(): string { if SessionSent? then session.callId else message.CallId() }
  }

  /** The table and the log of sends. `overwritten` and `dropped` record what the tracker
      forgets: sessions replaced under a reused Call-ID, and stray ACK, BYE and CANCEL. */
  datatype Tracker = Tracker(
    table: map<string, Session>, sends: seq<Sent>, overwritten: seq<Session>, dropped: seq<Message>)

  const EMPTY := Tracker(map[], [], [], [])

  /** A session that survived a message, or one that the message ended. */
  datatype Effect = Live(session: Session) | Ended(session: Session)

  function Created(m: Message): Session
    requires m.Request?
  {
    Session(m.CallId(), m.verb, m.header.fromUser, m.header.toUser,
            m.Time(), 0, 0, 0, 0, 0, Initiated, [m])
  }

  function Appended(s: Session, m: Message): Session { s.(messages := s.messages + [m]) }

  function Provisional(s: Session, m: Message): Session
    requires m.Response?
  {
    if (m.status == 180 || m.status == 183) && s.state.Initiated? then
      s.(setupTime := m.Time(), state := Provisioned)
    else s
  }

  function InviteOk(s: Session, m: Message): Session {
    var s1 := if s.state.Initiated? then s.(setupTime := m.Time()) else s;
    if s1.state.Provisioned? || s1.state.Initiated? then
      s1.(establishedTime := m.Time(), state := Established)
    else s1
  }

  function Successful(s: Session, m: Message): Effect
    requires m.Response?
  {
    if m.status != 200 then Live(s)
    else
      match m.related
      case INVITE => Live(InviteOk(s, m))
      case CANCEL => Ended(s.(endTime := m.Time(), state := Canceled))
      case BYE => Ended(s.(endTime := m.Time(), state := Completed))
      case _ => Ended(s.(setupTime := m.Time(), endTime := m.Time(), state := Completed))
  }

  /** The state is overwritten before it is tested, so the set-up time always moves. */
  function Failure(s: Session, m: Message): Session {
    s.(endTime := m.Time(), state := Failed, setupTime := m.Time())
  }

  function Answered(s: Session, m: Message): Session {
    var s1 := Appended(s, m);
    if s1.firstResponseTime == 0 then s1.(firstResponseTime := m.Time()) else s1
  }

  function Absorb(s: Session, m: Message): Effect {
    match m
    case Request(_, verb) =>
      (match verb
       case ACK => if s.state.Failed? then Ended(Appended(s, m)) else Live(Appended(s, m))
       case BYE =>
         Live(Appended(s, m).(disconnectionStart := m.Time(), state := Disconnecting))
       case CANCEL =>
         Live(Appended(s, m).(disconnectionStart := m.Time(), state := Disconnecting))
       case _ => Live(Appended(s, m)))
    case Response(_, status, _) =>
      var s1 := Answered(s, m);
      if 100 <= status < 200 then Live(Provisional(s1, m))
      else if 200 <= status < 300 then Successful(s1, m)
      else if 400 <= status < 700 then Ended(Failure(s1, m))
      else Live(s1)
  }

  /** An ended session is sent and leaves the table under its own Call-ID. */
  function Settle(t: Tracker, c: string, e: Effect): Tracker {
    match e
    case Live(s) => t.(table := t.table[c := s])
    case Ended(s) => t.(table := t.table - {s.callId}, sends := t.sends + [SessionSent(s)])
  }

  function Handle(t: Tracker, m: Message): Tracker {
    var c := m.CallId();
    if m.Request? && m.verb.Other? then
      t.(table := t.table[c := Created(m)],
         overwritten := if c in t.table then t.overwritten + [t.table[c]] else t.overwritten)
    else if c in t.table then
      Settle(t, c, Absorb(t.table[c], m))
    else if m.Response? then t.(sends := t.sends + [MessageSent(m)])
    else if m.verb.INVITE? then t.(table := t.table[c := Created(m)])
    else t.(dropped := t.dropped + [m])
  }

  /** The tracker after a whole trace, oldest message first. */
  function Run(t: Tracker, trace: seq<Message>): Tracker {
    if trace == [] then t
    else Handle(Run(t, trace[..|trace| - 1]), trace[|trace| - 1])
  }

  // ---------------------------------------------------------------------------------------
  // Declarative reading of a message list
  // ---------------------------------------------------------------------------------------

  ghost predicate Has(ms: seq<Message>, p: Message -> bool) { exists i :: 0 <= i < |ms| && p(ms[i]) }

  /** Time of the first message that satisfies `p`, 0 when there is none. */
  ghost function FirstTime(ms: seq<Message>, p: Message -> bool): int {
    if ms == [] then 0
    else if Has(ms[..|ms| - 1], p) then FirstTime(ms[..|ms| - 1], p)
    else if p(ms[|ms| - 1]) then ms[|ms| - 1].Time()
    else 0
  }

  /** Time of the last message that satisfies `p`, 0 when there is none. */
  ghost function LastTime(ms: seq<Message>, p: Message -> bool): int {
    if ms == [] then 0
    else if p(ms[|ms| - 1]) then ms[|ms| - 1].Time()
    else LastTime(ms[..|ms| - 1], p)
  }

  /** The messages before the first BYE or CANCEL. */
  ghost function Talking(ms: seq<Message>): seq<Message> {
    if ms == [] then []
    else if Has(ms, IsDisconnect) then Talking(ms[..|ms| - 1])
    else ms
  }

  /** A response whose time is not the "not yet" marker 0. */
  predicate IsTimedResponse(m: Message) { m.Response? && m.Time() != 0 }

  predicate IsSetup(m: Message) { IsRinging(m) || IsInviteOk(m) }

  ghost function ReadState(ms: seq<Message>): State {
    if Has(ms, IsDisconnect) then Disconnecting
    else if Has(ms, IsInviteOk) then Established
    else if Has(ms, IsRinging) then Provisioned
    else Initiated
  }

  /** The session a live message list stands for. */
  ghost function Reading(ms: seq<Message>): Session
    requires ms != [] && ms[0].Request?
  {
    Session(ms[0].CallId(), ms[0].verb, ms[0].header.fromUser, ms[0].header.toUser,
            ms[0].Time(),
            FirstTime(ms, IsTimedResponse),
            FirstTime(Talking(ms), IsSetup),
            FirstTime(Talking(ms), IsInviteOk),
            LastTime(ms, IsDisconnect),
            0, ReadState(ms), ms)
  }
}
