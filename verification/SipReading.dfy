/** Every live session is the declarative reading of its own messages, and every emitted
    session is that reading closed by its last message: proved for all traces. */
module SipReading {
  import opened SipMessages
  import opened SipTracker

  // ---------------------------------------------------------------------------------------
  // Appending one message
  // ---------------------------------------------------------------------------------------

  lemma HasSnoc(ms: seq<Message>, m: Message, p: Message -> bool)
    ensures Has(ms + [m], p) <==> Has(ms, p) || p(m)
  {
    var n := ms + [m];
    if Has(ms, p) {
      var i :| 0 <= i < |ms| && p(ms[i]);
      assert p(n[i]);
    }
    if p(m) {
      assert p(n[|ms|]);
    }
  }

  lemma FirstTimeSnoc(ms: seq<Message>, m: Message, p: Message -> bool)
    ensures FirstTime(ms + [m], p) ==
            if Has(ms, p) then FirstTime(ms, p) else if p(m) then m.Time() else 0
  {
    assert (ms + [m])[..|ms|] == ms;
  }

  lemma LastTimeSnoc(ms: seq<Message>, m: Message, p: Message -> bool)
    ensures LastTime(ms + [m], p) == if p(m) then m.Time() else LastTime(ms, p)
  {
    assert (ms + [m])[..|ms|] == ms;
  }

  lemma TalkingWhole(ms: seq<Message>)
    requires !Has(ms, IsDisconnect)
    ensures Talking(ms) == ms
  {}

  lemma TalkingSnoc(ms: seq<Message>, m: Message)
    ensures Talking(ms + [m]) ==
            if Has(ms, IsDisconnect) || IsDisconnect(m) then Talking(ms) else ms + [m]
  {
    HasSnoc(ms, m, IsDisconnect);
    assert (ms + [m])[..|ms|] == ms;
  }

  lemma {:induction false} FirstTimeNone(ms: seq<Message>, p: Message -> bool)
    requires !Has(ms, p)
    ensures FirstTime(ms, p) == 0
  {
    if ms != [] {
      assert ms == ms[..|ms| - 1] + [ms[|ms| - 1]];
      HasSnoc(ms[..|ms| - 1], ms[|ms| - 1], p);
    }
  }

  lemma {:induction false} TimedResponseNonzero(ms: seq<Message>)
    ensures Has(ms, IsTimedResponse) <==> FirstTime(ms, IsTimedResponse) != 0
  {
    if ms != [] {
      var front, m := ms[..|ms| - 1], ms[|ms| - 1];
      assert ms == front + [m];
      HasSnoc(front, m, IsTimedResponse);
      TimedResponseNonzero(front);
    }
  }

  lemma HasSetup(ms: seq<Message>)
    ensures Has(ms, IsSetup) <==> Has(ms, IsRinging) || Has(ms, IsInviteOk)
  {
    if i :| 0 <= i < |ms| && IsSetup(ms[i]) {
      assert IsRinging(ms[i]) || IsInviteOk(ms[i]);
    }
    if i :| 0 <= i < |ms| && IsRinging(ms[i]) {
      assert IsSetup(ms[i]);
    }
    if i :| 0 <= i < |ms| && IsInviteOk(ms[i]) {
      assert IsSetup(ms[i]);
    }
  }

  /** What `FirstTime` says without recursion: the first index that satisfies `p` supplies
      the time, and without one the time is 0. */
  lemma {:induction false} FirstTimeMeans(ms: seq<Message>, p: Message -> bool, k: nat)
    requires k <= |ms| && (k < |ms| ==> p(ms[k])) && forall i :: 0 <= i < k ==> !p(ms[i])
    ensures FirstTime(ms, p) == if k < |ms| then ms[k].Time() else 0
  {
    if k < |ms| - 1 {
      assert p(ms[..|ms| - 1][k]);
      FirstTimeMeans(ms[..|ms| - 1], p, k);
    } else if |ms| > 0 {
      assert !Has(ms[..|ms| - 1], p);
    }
  }

  /** What `LastTime` says without recursion: the last index that satisfies `p` supplies the time. */
  lemma {:induction false} LastTimeMeans(ms: seq<Message>, p: Message -> bool, k: int)
    requires -1 <= k < |ms| && (k >= 0 ==> p(ms[k])) && forall i :: k < i < |ms| ==> !p(ms[i])
    ensures LastTime(ms, p) == if k >= 0 then ms[k].Time() else 0
  {
    if k < |ms| - 1 { LastTimeMeans(ms[..|ms| - 1], p, k); }
  }

  /** What `Talking` says without recursion. */
  lemma {:induction false} TalkingMeans(ms: seq<Message>, k: nat)
    requires k <= |ms| && (k < |ms| ==> IsDisconnect(ms[k]))
    requires forall i :: 0 <= i < k ==> !IsDisconnect(ms[i])
    ensures Talking(ms) == ms[..k]
  {
    if k < |ms| {
      assert Has(ms, IsDisconnect);
      TalkingMeans(ms[..|ms| - 1], k);
      assert ms[..|ms| - 1][..k] == ms[..k];
    } else {
      assert !Has(ms, IsDisconnect);
    }
  }

  // ---------------------------------------------------------------------------------------
  // The shapes of sessions
  // ---------------------------------------------------------------------------------------

  ghost predicate Conversation(c: string, ms: seq<Message>) {
    && ms != [] && OpensSession(ms[0])
    && (forall i :: 0 <= i < |ms| ==> ms[i].CallId() == c)
    && (forall i :: 1 <= i < |ms| ==> !(ms[i].Request? && ms[i].verb.Other?))
  }

  /** A table entry under key `c`. */
  ghost predicate LiveShape(c: string, s: Session) {
    && Conversation(c, s.messages)
    && (forall i :: 0 <= i < |s.messages| ==> !IsFinal(s.messages[i]))
    && s == Reading(s.messages)
  }

  function ClosingState(m: Message): State {
    if IsFailure(m) then Failed
    else if m.Response? && m.related.CANCEL? then Canceled
    else Completed
  }

  /** The reading of a message list whose last message, and no other, is final. */
  ghost function Closed(ms: seq<Message>): Session
    requires ms != [] && ms[0].Request?
  {
    var last := ms[|ms| - 1];
    var r := Reading(ms);
    r.(endTime := last.Time(),
       setupTime := if IsClosingOk(last) then r.setupTime else last.Time(),
       state := ClosingState(last))
  }

  ghost predicate ClosedShape(s: Session) {
    var ms := s.messages;
    && Conversation(s.callId, ms)
    && IsFinal(ms[|ms| - 1])
    && (forall i :: 0 <= i < |ms| - 1 ==> !IsFinal(ms[i]))
    && s == Closed(ms)
  }

  ghost predicate SentShape(x: Sent) {
    if x.SessionSent? then ClosedShape(x.session) else x.message.Response?
  }

  ghost predicate Faithful(t: Tracker) {
    && (forall c :: c in t.table ==> LiveShape(c, t.table[c]))
    && (forall i :: 0 <= i < |t.sends| ==> SentShape(t.sends[i]))
    && (forall i :: 0 <= i < |t.overwritten| ==> LiveShape(t.overwritten[i].callId, t.overwritten[i]))
    && (forall i :: 0 <= i < |t.dropped| ==> t.dropped[i].Request? && !OpensSession(t.dropped[i]))
  }

  // ---------------------------------------------------------------------------------------
  // One message
  // ---------------------------------------------------------------------------------------

  lemma CreatedShape(m: Message)
    requires OpensSession(m)
    ensures LiveShape(m.CallId(), Created(m))
  {
    var ms := [m];
    assert !Has(ms, IsDisconnect) && !Has(ms, IsInviteOk) && !Has(ms, IsRinging);
    assert !Has(ms, IsSetup) && !Has(ms, IsTimedResponse);
    TalkingWhole(ms);
    FirstTimeNone(ms, IsSetup);
    FirstTimeNone(ms, IsInviteOk);
    FirstTimeNone(ms, IsTimedResponse);
    assert ms == [] + [m];
    LastTimeSnoc([], m, IsDisconnect);
  }

  lemma SnocFacts(ms: seq<Message>, m: Message)
    ensures Has(ms + [m], IsDisconnect) <==> Has(ms, IsDisconnect) || IsDisconnect(m)
    ensures Has(ms + [m], IsInviteOk) <==> Has(ms, IsInviteOk) || IsInviteOk(m)
    ensures Has(ms + [m], IsRinging) <==> Has(ms, IsRinging) || IsRinging(m)
    ensures LastTime(ms + [m], IsDisconnect) ==
            if IsDisconnect(m) then m.Time() else LastTime(ms, IsDisconnect)
    ensures FirstTime(ms + [m], IsTimedResponse) ==
            if FirstTime(ms, IsTimedResponse) == 0 && m.Response? then m.Time()
            else FirstTime(ms, IsTimedResponse)
  {
    HasSnoc(ms, m, IsDisconnect);
    HasSnoc(ms, m, IsInviteOk);
    HasSnoc(ms, m, IsRinging);
    LastTimeSnoc(ms, m, IsDisconnect);
    TimedResponseNonzero(ms);
    FirstTimeSnoc(ms, m, IsTimedResponse);
  }

  lemma SnocSetup(ms: seq<Message>, m: Message)
    ensures FirstTime(Talking(ms + [m]), IsSetup) ==
            if ReadState(ms).Initiated? && IsSetup(m) then m.Time() else FirstTime(Talking(ms), IsSetup)
    ensures FirstTime(Talking(ms + [m]), IsInviteOk) ==
            if (ReadState(ms).Initiated? || ReadState(ms).Provisioned?) && IsInviteOk(m) then m.Time()
            else FirstTime(Talking(ms), IsInviteOk)
  {
    TalkingSnoc(ms, m);
    if !Has(ms, IsDisconnect) {
      TalkingWhole(ms);
      HasSetup(ms);
      FirstTimeSnoc(ms, m, IsSetup);
      FirstTimeSnoc(ms, m, IsInviteOk);
      if !Has(ms, IsSetup) { FirstTimeNone(ms, IsSetup); }
      if !Has(ms, IsInviteOk) { FirstTimeNone(ms, IsInviteOk); }
    }
  }

  lemma AbsorbRequestReads(ms: seq<Message>, m: Message)
    requires ms != [] && ms[0].Request? && m.Request?
    ensures Absorb(Reading(ms), m) == Live(Reading(ms + [m]))
  {
    hide FirstTime, LastTime, Talking, Has;
    SnocFacts(ms, m);
    SnocSetup(ms, m);
  }

  /** The reading of the longer list, field by field, for a response. */
  lemma ReadingResponse(ms: seq<Message>, m: Message)
    requires ms != [] && ms[0].Request? && m.Response?
    ensures var r := Reading(ms);
            var early := r.state.Initiated? || r.state.Provisioned?;
            Reading(ms + [m]) == Answered(r, m).(
              setupTime := if r.state.Initiated? && IsSetup(m) then m.Time() else r.setupTime,
              establishedTime := if early && IsInviteOk(m) then m.Time() else r.establishedTime,
              state := if early && IsInviteOk(m) then Established
                       else if r.state.Initiated? && IsRinging(m) then Provisioned
                       else r.state)
  {
    hide FirstTime, LastTime, Talking, Has;
    SnocFacts(ms, m);
    SnocSetup(ms, m);
  }

  lemma AbsorbReads(ms: seq<Message>, m: Message)
    requires ms != [] && ms[0].Request?
    ensures Absorb(Reading(ms), m) ==
            if IsFinal(m) then Ended(Closed(ms + [m])) else Live(Reading(ms + [m]))
  {
    hide FirstTime, LastTime, Talking, Has;
    if m.Request? {
      AbsorbRequestReads(ms, m);
    } else {
      ReadingResponse(ms, m);
      assert (ms + [m])[|ms|] == m;
    }
  }

  lemma AbsorbShape(c: string, s: Session, m: Message)
    requires LiveShape(c, s) && m.CallId() == c && !(m.Request? && m.verb.Other?)
    ensures match Absorb(s, m)
            case Live(s1) => LiveShape(c, s1) && !IsFinal(m)
            case Ended(s1) => ClosedShape(s1) && s1.callId == c && IsFinal(m)
    ensures Absorb(s, m).session.messages == s.messages + [m]
  {
    hide FirstTime, LastTime, Talking, Has, ReadState, Absorb;
    AbsorbReads(s.messages, m);
  }

  lemma LiveKey(c: string, s: Session)
    requires LiveShape(c, s)
    ensures s.callId == c
  {}

  lemma HandleFaithful(t: Tracker, m: Message)
    requires Faithful(t)
    ensures Faithful(Handle(t, m))
  {
    hide Absorb, LiveShape, ClosedShape, Created;
    var c := m.CallId();
    if OpensSession(m) { CreatedShape(m); }
    if c in t.table {
      LiveKey(c, t.table[c]);
      if !(m.Request? && m.verb.Other?) { AbsorbShape(c, t.table[c], m); }
    }
  }

  /** Safety over whole runs: whatever the trace, every table entry is the reading of its
      messages, all of which carry the entry's key, and every emitted session is the reading
      of its messages closed by the last one. */
  lemma {:induction false} RunFaithful(trace: seq<Message>)
    ensures Faithful(Run(EMPTY, trace))
  {
    if trace != [] {
      RunFaithful(trace[..|trace| - 1]);
      HandleFaithful(Run(EMPTY, trace[..|trace| - 1]), trace[|trace| - 1]);
    }
  }
}
