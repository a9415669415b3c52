/** What a run of a server connection puts into the write queue: each message is what one event asked for. */
module Outbox {
  import opened Bytes
  import opened CloseHandshake
  import opened Frame
  import opened Lifecycle
  import opened Sender
  import opened Wire
  import Close
  import Utf8

  // ---------- what events ask for ----------

  /** A close frame, if its payload fits. */
  function CloseMessage(payload: seq<byte>, terminal: bool): seq<Sent> {
    if |payload| <= 125 then [Sent(FromClosing, CloseFrame(payload), terminal)] else []
  }

  /** The answer to a close frame: none to the answer to ours, unless that cannot be accepted. */
  ghost function Answer(o: Options, s: SessionState, payload: seq<byte>): seq<Sent> {
    var bad := !WellFormedClose(payload);
    if (s == Open || (s == Closing && bad)) && !(o.dropOnProtocolError && bad) then
      CloseMessage(if o.silentClose then [] else Reply(payload), true)
    else []
  }

  /** The code that reports an error of the protocol processor (RFC 6455, section 7.4.1). */
  function CodeOf(e: ProcessorError): Close.Code {
    if e == InvalidPayload || e == InvalidUtf8 then 1007
    else if e == MessageTooBig then 1009
    else if e == NonMinimalEncoding || e == ReasonRequiresCode then 1011
    else 1002
  }

  function First123(reason: seq<byte>): seq<byte> { if |reason| > 123 then reason[..123] else reason }

  /** What the application gets for a code and reason: 0 and 1005 stand for no code. */
  function Requested(o: Options, code: Close.Code, reason: seq<byte>): seq<Sent> {
    var terminal := code in {1002, 1007, 1008, 1009, 1011};
    if o.silentClose || code == 0 || (code == 1005 && reason == []) then CloseMessage([], terminal)
    else if Close.Usable(code) then CloseMessage(Close.CodeOctets(code) + First123(reason), terminal)
    else []
  }

  /** What an event puts into the queue of a connection in a given state. */
  ghost function Asked(o: Options, s: SessionState, e: Event): seq<Sent> {
    match e
    case Send(op, fin, payload) =>
      if s == Open && op < 0x8 && |payload| < TWO_64 && (op == 0x1 ==> Utf8.WellFormed(payload)) then
        [FromApp(WireFrame(op, fin, None, payload))]
      else []
    case SendPrepared(message, terminal) => if s == Open then [Sent(FromApplication, message, terminal)] else []
    case Ping(payload) => if s == Open && |payload| <= 125 then [FromApp(WireFrame(0x9, true, None, payload))] else []
    case Pong(payload) => if s == Open && |payload| <= 125 then [FromApp(WireFrame(0xA, true, None, payload))] else []
    case Control(op, payload, reply) =>
      if op == 0x8 then Answer(o, s, payload)
      else if s == Open && op == 0x9 && reply && |payload| <= 125 then [FromApp(WireFrame(0xA, true, None, payload))]
      else []
    case RequestClose(code, reason) => if s == Open then Requested(o, code, reason) else []
    case Violation(error, reason) =>
      if s == Open && !o.dropOnProtocolError then
        CloseMessage(if o.silentClose then [] else Close.CodeOctets(CodeOf(error)) + First123(reason), true)
      else []
    case _ => []
  }

  // ---------- one event ----------

  lemma NoBytes(q: seq<Sent>)
    ensures q + [] == q
  {
  }

  lemma Requests(o: Options, c: Conn, code: Close.Code, reason: seq<byte>)
    requires c.state == Open
    ensures CloseRequested(o, c, code, reason).queued == c.queued + Requested(o, code, reason)
  {
    hide Carrying, Close.CodeOctets;
    NoBytes(c.queued);
  }

  lemma Reports(o: Options, c: Conn, error: ProcessorError, reason: seq<byte>)
    requires c.internal == ProcessConnection
    ensures ProtocolError(o, c, error, reason).queued == c.queued + Asked(o, c.state, Violation(error, reason))
  {
    hide CloseSent, CloseMessage, First123, Truncated, Close.CodeOctets, Close.Usable, Close.Terminal;
    SameCode(error);
    NoBytes(c.queued);
    if c.state == Open && !o.dropOnProtocolError {
      Requests(o, c, CodeFor(error), reason);
      Reported(o, c, error, reason);
    }
  }

  lemma Reported(o: Options, c: Conn, error: ProcessorError, reason: seq<byte>)
    requires c.state == Open
    ensures CloseRequested(o, c, CodeFor(error), reason).state == Closing
    ensures Requested(o, CodeOf(error), reason) ==
            CloseMessage(if o.silentClose then [] else Close.CodeOctets(CodeOf(error)) + First123(reason), true)
  {
    hide Carrying, Close.CodeOctets, CloseMessage;
  }

  /** The code that is sent for each error. */
  lemma SameCode(error: ProcessorError)
    ensures CodeFor(error) == CodeOf(error)
  {
  }

  lemma Refuses(o: Options, c: Conn, text: string)
    requires c.state in {Open, Closing}
    requires (forall x :: x in text ==> x < 128 as char) && |text| <= 123
    ensures InvalidClose(o, c, text).queued ==
            c.queued + if o.dropOnProtocolError then []
                       else CloseMessage(if o.silentClose then [] else Close.CodeOctets(1002) + Ascii(text), true)
  {
    hide Carrying, Close.CodeOctets;
    NoBytes(c.queued);
  }

  lemma Echoes(o: Options, c: Conn, payload: seq<byte>)
    requires WellFormedClose(payload)
    requires c.remoteCode == Close.ExtractCode(payload).code && c.remoteReason == Close.Reason(payload)
    ensures CloseSent(o, c, Close.BLANK, [], true, true).queued ==
            c.queued + CloseMessage(if o.silentClose then [] else Reply(payload), true)
  {
    hide Carrying, Close.CodeOctets, Utf8.WellFormed;
    NoBytes(c.queued);
    if |payload| >= 2 { Close.PayloadRoundTrip(payload); }
    assert Close.CodeOctets(Close.NORMAL) + [] == Close.CodeOctets(Close.NORMAL);
  }

  lemma Answers(o: Options, c: Conn, payload: seq<byte>)
    requires c.state in {Open, Closing}
    ensures CloseReceived(o, c, payload).queued == c.queued + Answer(o, c.state, payload)
  {
    hide Carrying, Close.CodeOctets, Utf8.WellFormed, CloseSent, InvalidClose, Ascii, CloseMessage, Close.ExtractCode;
    var c1 := c.(remoteCode := Close.ExtractCode(payload).code);
    var c2 := c1.(remoteReason := Close.Reason(payload));
    TextLengths();
    Refuses(o, c1, "Invalid close code");
    Refuses(o, c2, "Invalid close reason");
    if WellFormedClose(payload) { Echoes(o, c2, payload); }
    NoBytes(c.queued);
    NothingToCheck();
  }

  lemma NothingToCheck()
    ensures Utf8.WellFormed([]) && Close.ExtractCode([]).error.None?
  {
    Utf8.AcceptsExactlyWellFormed([]);
  }

  lemma ApplicationAsks(o: Options, c: Conn, e: Event)
    requires Enabled(c, e) && (e.Send? || e.SendPrepared? || e.Ping? || e.Pong?)
    ensures Apply(o, c, e).queued == c.queued + Asked(o, c.state, e)
  {
    hide Carrying, Utf8.WellFormed, ControlReceived, ProtocolError, CloseRequested, RequestRead, ResponseWritten,
      ShutDown, Terminated;
    NoBytes(c.queued);
  }

  lemma NoAnswer(o: Options, s: SessionState, payload: seq<byte>)
    requires s !in {Open, Closing}
    ensures Answer(o, s, payload) == []
  {
  }

  lemma ControlAsks(o: Options, c: Conn, op: byte, payload: seq<byte>, reply: bool)
    requires c.state != Connecting
    ensures ControlReceived(o, c, op, payload, reply).queued ==
            c.queued + Asked(o, c.state, Control(op, payload, reply))
  {
    hide Carrying, CloseReceived, Answer;
    NoBytes(c.queued);
    if op == CLOSE {
      if c.state in {Open, Closing} { Answers(o, c, payload); } else { NoAnswer(o, c.state, payload); }
    }
  }

  /** Every event adds to the queue what it asks for, and nothing else does. */
  lemma EventAsks(o: Options, c: Conn, e: Event)
    requires Inv(c) && Enabled(c, e)
    ensures Apply(o, c, e).queued == c.queued + Asked(o, c.state, e)
  {
    NoBytes(c.queued);
    match e
    case Control(op, payload, reply) => NotConnecting(c); ControlAsks(o, c, op, payload, reply);
    case Violation(error, reason) => Reports(o, c, error, reason);
    case RequestClose(code, reason) => if c.state == Open { Requests(o, c, code, reason); }
    case Send(_, _, _) => ApplicationAsks(o, c, e);
    case SendPrepared(_, _) => ApplicationAsks(o, c, e);
    case Ping(_) => ApplicationAsks(o, c, e);
    case Pong(_) => ApplicationAsks(o, c, e);
    case _ => HandshakeKeepsQueue(o, c, e);
  }

  // ---------- runs ----------

  /** What the events of a run ask for, each in the state in which it finds the connection. */
  ghost function AllAsked(o: Options, es: seq<Event>, n: nat): seq<Sent>
    requires Run(o, INIT, es) && n <= |es|
  {
    if n == 0 then [] else AllAsked(o, es, n - 1) + Asked(o, At(o, es, n - 1).state, es[n - 1])
  }

  /** The queue of a connection is exactly what was asked for, in this order: nothing is lost, added or changed. */
  lemma {:induction false} QueueIsWhatWasAsked(o: Options, es: seq<Event>, n: nat)
    requires Run(o, INIT, es) && n <= |es|
    ensures At(o, es, n).queued == AllAsked(o, es, n)
    ensures n == |es| ==> After(o, INIT, es).queued == AllAsked(o, es, n)
    decreases n
  {
    assert es[..|es|] == es;
    if n == 0 {
      assert es[..0] == [];
    } else {
      hide Apply, Enabled, Inv, At, Run, Asked;
      QueueIsWhatWasAsked(o, es, n - 1);
      NextAt(o, es, n - 1);
      EventAsks(o, At(o, es, n - 1), es[n - 1]);
    }
  }
}
