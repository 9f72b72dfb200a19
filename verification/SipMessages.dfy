/** Parsed SIP messages, as the capture side hands them to the tracker. */
module SipMessages {

  /** The four methods the tracker tells apart; every other method keeps its name. */
  datatype Method = INVITE | ACK | BYE | CANCEL | Other(name: string)

  datatype Endpoint = Endpoint(address: string, port: int)

  datatype Header = Header(
    callId: string, time: int, fromUser: string, toUser: string, src: Endpoint, dst: Endpoint)

  /** A response carries the method of its CSeq header in `related`. */
  datatype Message =
    | Request(header: Header, verb: Method)
    | Response(header: Header, status: int, related: Method)
  {
    function CallId(): string { header.callId }

    function Time(): int { header.time }
  }

  predicate IsDisconnect(m: Message) { m.Request? && (m.verb.BYE? || m.verb.CANCEL?) }

  /** 180 Ringing and 183 Session Progress. */
  predicate IsRinging(m: Message) { m.Response? && (m.status == 180 || m.status == 183) }

  predicate IsInviteOk(m: Message) { m.Response? && m.status == 200 && m.related.INVITE? }

  predicate IsFailure(m: Message) { m.Response? && 400 <= m.status < 700 }

  /** 200 to a request that is neither INVITE, CANCEL nor BYE. */
  predicate IsPlainOk(m: Message)
  {
    m.Response? && m.status == 200 && !m.related.INVITE? && !m.related.CANCEL? && !m.related.BYE?
  }

  predicate IsClosingOk(m: Message)
  {
    m.Response? && m.status == 200 && (m.related.CANCEL? || m.related.BYE?)
  }

  /** The responses that end a session. */
  predicate IsFinal(m: Message) { IsFailure(m) || IsPlainOk(m) || IsClosingOk(m) }

  /** The method of a request that opens a session of its own. */
  predicate OpensSession(m: Message) { m.Request? && (m.verb.INVITE? || m.verb.Other?) }
}
