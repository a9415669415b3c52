/** The closing handshake of a server connection (RFC 6455, sections 5.5.1 and 7.1). */
module CloseHandshake {
  import opened Bytes
  import opened Frame
  import opened Lifecycle
  import opened Sender
  import Close
  import Utf8

  /** What a close frame is answered with. */
  ghost function Reply(payload: seq<byte>): seq<byte> {
    if payload == [] then Close.CodeOctets(Close.NORMAL)
    else if Close.ExtractCode(payload).error.Some? then
      Close.CodeOctets(Close.PROTOCOL_ERROR) + Ascii("Invalid close code")
    else if !Utf8.WellFormed(Close.Reason(payload)) then
      Close.CodeOctets(Close.PROTOCOL_ERROR) + Ascii("Invalid close reason")
    else payload
  }

  /**
   Every close frame that may arrive while the connection is open is answered: a usable code and
   reason are echoed octet for octet, an empty payload with 1000, anything else with 1002.
   */
  lemma CloseIsAnswered(o: Options, c: Conn, payload: seq<byte>, reply: bool)
    requires c.state == Open && !o.dropOnProtocolError && !o.silentClose && |payload| <= PAYLOAD_SIZE_BASIC
    ensures var d, r := ControlReceived(o, c, CLOSE, payload, reply), Reply(payload);
            && |r| <= PAYLOAD_SIZE_BASIC && d.state == Closing && d.wasClean
            && d.queued == c.queued + [Sent(FromClosing, CloseFrame(r), true)]
            && d.shutdowns == c.shutdowns
  {
    hide Carrying, Utf8.WellFormed, Ascii, Close.CodeOctets;
    assert |Ascii("Invalid close code")| <= 123 && |Ascii("Invalid close reason")| <= 123 by { TextLengths(); }
    if |payload| >= 2 {
      Close.PayloadRoundTrip(payload);
    } else if |payload| == 0 {
      assert Utf8.WellFormed([]) by { Utf8.AcceptsExactlyWellFormed([]); }
      assert Close.CodeOctets(Close.NORMAL) + [] == Close.CodeOctets(Close.NORMAL);
    }
  }

  /**
   The replies by code: 1000 to 1003, 1007 to 1014 and 3000 to 4999 with a reason in UTF-8 come back
   as they were, nothing is answered with 1000 and everything else with 1002.
   */
  lemma RepliesByCode(code: Close.Code, reason: seq<byte>, octet: byte)
    ensures var p, usable := Close.CodeOctets(code) + reason,
                1000 <= code <= 1003 || 1007 <= code <= 1014 || 3000 <= code <= 4999;
            && (WellFormedClose(p) <==> usable && Utf8.WellFormed(reason))
            && (WellFormedClose(p) ==> Reply(p) == p)
            && (!WellFormedClose(p) ==> [0x03, 0xEA] < Reply(p))
    ensures WellFormedClose([]) && Reply([]) == [0x03, 0xE8]
    ensures !WellFormedClose([octet]) && [0x03, 0xEA] < Reply([octet])
  {
    TextLengths();
    hide Utf8.WellFormed, Ascii, Close.Reason, Close.ExtractCode, Close.CodeOctets;
    Close.CodeRoundTrip(code, reason);
    Close.ShortPayloads(octet);
    OwnCodes();
    assert Utf8.WellFormed([]) by { Utf8.AcceptsExactlyWellFormed([]); }
  }

  lemma OwnCodes()
    ensures Close.CodeOctets(Close.NORMAL) == [0x03, 0xE8] && Close.CodeOctets(Close.PROTOCOL_ERROR) == [0x03, 0xEA]
  {
    NetworkOrder(0x03, 0xE8);
    NetworkOrder(0x03, 0xEA);
    BigEndianOfFromBigEndian([0x03, 0xE8]);
    BigEndianOfFromBigEndian([0x03, 0xEA]);
  }

  /** So a usable code with a reason in UTF-8 is echoed octet for octet. */
  lemma UsableCloseIsEchoed(o: Options, c: Conn, code: Close.Code, reason: seq<byte>, reply: bool)
    requires c.state == Open && !o.dropOnProtocolError && !o.silentClose
    requires (1000 <= code <= 1003 || 1007 <= code <= 1014 || 3000 <= code <= 4999)
    requires Utf8.WellFormed(reason) && |reason| <= 123
    ensures var p := Close.CodeOctets(code) + reason;
            var d := ControlReceived(o, c, CLOSE, p, reply);
            d.state == Closing && d.queued == c.queued + [Sent(FromClosing, CloseFrame(p), true)]
  {
    hide ControlReceived, CloseFrame, Utf8.WellFormed, Reply, Close.CodeOctets;
    RepliesByCode(code, reason, 0);
    CloseIsAnswered(o, c, Close.CodeOctets(code) + reason, reply);
  }

  /** A close frame that answers ours ends the connection cleanly. */
  lemma AnswerTerminates(o: Options, c: Conn, payload: seq<byte>, reply: bool)
    requires c.state == Closing && !c.wasClean && WellFormedClose(payload)
    ensures var d := ControlReceived(o, c, CLOSE, payload, reply);
            && d.state == Closed && d.wasClean && d.queued == c.queued
            && d.shutdowns == c.shutdowns + [ClosedStatus] && d.ec == c.ec
            && d.completed == c.completed && d.called == c.called
  {
  }

  /** The peer closes first: its frame is answered, the answer is written, the transport shuts down. */
  lemma PeerClosesFirst(o: Options, c: Conn, payload: seq<byte>, reply: bool)
    requires Inv(c) && c.state == Open && !o.dropOnProtocolError && !o.silentClose && |payload| <= PAYLOAD_SIZE_BASIC
    ensures var es := [Control(CLOSE, payload, reply), WroteFrames(None, true), TransportDown];
            && Run(o, c, es)
            && var d := After(o, c, es);
               && |Reply(payload)| <= PAYLOAD_SIZE_BASIC && d.state == Closed && d.wasClean
               && d.queued == c.queued + [Sent(FromClosing, CloseFrame(Reply(payload)), true)]
               && d.called == [OpenHandler, CloseHandler]
  {
    hide ControlReceived, CloseFrame, Reply, After, Run;
    CloseIsAnswered(o, c, payload, reply);
    EventFollows(o, c, Control(CLOSE, payload, reply));
    ThreeEvents(o, c, Control(CLOSE, payload, reply), WroteFrames(None, true), TransportDown);
  }

  /** We close first: a usable answer ends the connection without another frame. */
  lemma WeCloseFirst(o: Options, c: Conn, code: Close.Code, reason: seq<byte>, payload: seq<byte>, reply: bool)
    requires Inv(c) && c.state == Open && !o.silentClose && code != Close.BLANK && WellFormedClose(payload)
    requires !Close.Reserved(code) && !Close.Invalid(code)
    ensures var es := [RequestClose(code, reason), Control(CLOSE, payload, reply), TransportDown];
            && Run(o, c, es)
            && var d, own := After(o, c, es), Close.CodeOctets(code) + Truncated(reason);
               && |own| <= PAYLOAD_SIZE_BASIC && d.state == Closed && d.wasClean
               && d.queued == c.queued + [Sent(FromClosing, CloseFrame(own), Close.Terminal(code))]
               && d.called == [OpenHandler, CloseHandler]
  {
    hide ControlReceived, CloseFrame, After, Run, Truncated, Close.CodeOctets, WellFormedClose;
    TruncatedLength(reason);
    var c1 := CloseRequested(o, c, code, reason);
    EventFollows(o, c, RequestClose(code, reason));
    assert c1 == Apply(o, c, RequestClose(code, reason)) && c1.internal == c.internal == ProcessConnection;
    AnswerTerminates(o, c1, payload, reply);
    EventFollows(o, c1, Control(CLOSE, payload, reply));
    ThreeEvents(o, c, RequestClose(code, reason), Control(CLOSE, payload, reply), TransportDown);
  }

  /** A protocol error in the open state is reported with a terminal close frame. */
  lemma ViolationIsReported(o: Options, c: Conn, error: ProcessorError, reason: seq<byte>)
    requires c.state == Open && !o.dropOnProtocolError && !o.silentClose
    ensures var d, r := ProtocolError(o, c, error, reason), Close.CodeOctets(CodeFor(error)) + Truncated(reason);
            && |r| <= PAYLOAD_SIZE_BASIC && d.state == Closing && !d.wasClean == !c.wasClean
            && d.queued == c.queued + [Sent(FromClosing, CloseFrame(r), true)]
  {
    hide Carrying, Close.CodeOctets, Truncated;
    assert |Truncated(reason)| <= PAYLOAD_SIZE_BASIC - 2 by { TruncatedLength(reason); }
  }

  lemma TruncatedLength(reason: seq<byte>)
    ensures |Truncated(reason)| <= PAYLOAD_SIZE_BASIC - 2
  {
  }

  /**
   While closing, a close frame is answered with another close frame exactly if its code or reason
   is not usable.
   */
  lemma WhenCloseIsRepeated(o: Options, c: Conn, payload: seq<byte>, reply: bool)
    requires c.state == Closing
    ensures ControlReceived(o, c, CLOSE, payload, reply).queued != c.queued
            <==> !o.dropOnProtocolError && !WellFormedClose(payload)
  {
    hide Carrying, Utf8.WellFormed, Ascii, Close.ExtractCode;
    assert |Ascii("Invalid close code")| <= 123 && |Ascii("Invalid close reason")| <= 123 by { TextLengths(); }
  }

  /** A run in which two close frames are queued: the answer to ours consists of a single octet. */
  lemma CloseCanBeRepeated()
    ensures var o := Options(false, false);
            var es := [Start, TransportReady(None),
                       ReadRequest(None, Complete(false, SWITCHING_PROTOCOLS, None, false)),
                       WroteResponse(None), RequestClose(Close.NORMAL, []), Control(CLOSE, [0], false)];
            && Run(o, INIT, es) && CloseFrames(After(o, INIT, es).queued) == 2
  {
    hide DataResult, ControlResult, Run, After, CloseFrame, Ascii, CloseFrames, RequestRead, ControlReceived,
      CloseRequested;
    var o := Options(false, false);
    var a := [Start, TransportReady(None), ReadRequest(None, Complete(false, SWITCHING_PROTOCOLS, None, false))];
    var b := [WroteResponse(None), RequestClose(Close.NORMAL, []), Control(CLOSE, [0], false)];
    Handshaken(o, false, SWITCHING_PROTOCOLS);
    var c := After(o, INIT, a);
    var c1 := c.(internal := ProcessConnection, state := Open, called := [OpenHandler]);
    assert Apply(o, c, b[0]) == c1;
    OneMoreClose(o, c1);
    ThreeEvents(o, c, b[0], b[1], b[2]);
    RunConcat(o, INIT, a, b);
    assert a + b == [a[0], a[1], a[2], b[0], b[1], b[2]];
    TwoCloseFrames(After(o, c, b).queued);
  }

  lemma OneMoreClose(o: Options, c: Conn)
    requires c.state == Open && c.queued == [] && !o.dropOnProtocolError && !o.silentClose
    ensures var d := CloseRequested(o, c, Close.NORMAL, []);
            && d.internal == c.internal
            && var q := ControlReceived(o, d, CLOSE, [0], false).queued;
               |q| == 2 && q[0].origin == FromClosing && q[1].origin == FromClosing
  {
    hide CloseFrame, Ascii;
    TextLengths();
  }

  lemma TwoCloseFrames(q: seq<Sent>)
    requires |q| == 2 && q[0].origin == FromClosing && q[1].origin == FromClosing
    ensures CloseFrames(q) == 2
  {
    assert q[..1][..0] == [];
    assert CloseFrames(q[..1][..0]) == 0 && CloseFrames(q[..1]) == 1;
  }

  lemma TextLengths()
    ensures |Ascii("Invalid close code")| == 18 && |Ascii("Invalid close reason")| == 20
  {
  }

  function CloseFrames(q: seq<Sent>): nat {
    if q == [] then 0 else CloseFrames(q[..|q| - 1]) + if q[|q| - 1].origin == FromClosing then 1 else 0
  }

  /** No frame with an unusable code or reason arrives. */
  ghost predicate Polite(es: seq<Event>) {
    forall e :: e in es && e.Control? && e.op == CLOSE ==> WellFormedClose(e.payload)
  }

  ghost predicate AtMostOneClose(c: Conn) {
    CloseFrames(c.queued) <= (if c.state in {Connecting, Open} then 0 else 1)
  }

  lemma CloseSentOnce(o: Options, c: Conn, code: Close.Code, reason: seq<byte>, ack: bool, terminal: bool)
    requires c.state == Open && AtMostOneClose(c)
    ensures AtMostOneClose(CloseSent(o, c, code, reason, ack, terminal))
  {
    hide Carrying, ClosePayload, LocalClose;
    assert forall s: Sent :: (c.queued + [s])[..|c.queued|] == c.queued;
  }

  lemma ApplicationSends(c: Conn, r: Result<Prepared>, terminal: bool)
    requires AtMostOneClose(c)
    ensures AtMostOneClose(Enqueued(c, r, terminal))
  {
    assert forall s: Sent :: (c.queued + [s])[..|c.queued|] == c.queued;
  }

  lemma TerminatedKeepsQueue(c: Conn, ec: ErrorCode)
    ensures Terminated(c, ec).queued == c.queued && Rank(c.state) <= Rank(Terminated(c, ec).state)
  {
  }

  lemma RequestKeepsQueue(c: Conn, ec: ErrorCode, request: Request)
    ensures RequestRead(c, ec, request).queued == c.queued
  {
    hide Terminated;
    TerminatedKeepsQueue(c, ec);
    TerminatedKeepsQueue(c, Some(InvalidState));
  }

  lemma ResponseKeepsQueue(c: Conn, ec: ErrorCode)
    ensures ResponseWritten(c, ec).queued == c.queued
  {
    hide Terminated;
    TerminatedKeepsQueue(c, ec);
    TerminatedKeepsQueue(c, Some(InvalidState));
    TerminatedKeepsQueue(c, c.ec);
    TerminatedKeepsQueue(c.(ec := Some(HttpConnectionEnded)), Some(HttpConnectionEnded));
  }

  lemma HandshakeKeepsQueue(o: Options, c: Conn, e: Event)
    requires Enabled(c, e) && (e.Start? || e.TransportReady? || e.ReadRequest? || e.SetStatus?
               || e.DeferResponse? || e.SendResponse? || e.WroteResponse? || e.ReadFrame? || e.WroteFrames?
               || e.Timeout? || e.TransportDown?)
    ensures Apply(o, c, e).queued == c.queued
  {
    hide ControlReceived, ProtocolError, CloseRequested, Enqueued, DataResult, ControlResult, Terminated, RequestRead,
      ResponseWritten;
    TerminatedKeepsQueue(c, None);
    TerminatedKeepsQueue(c, Some(InvalidState));
    TerminatedKeepsQueue(c, Some(OtherFailure));
    match e
    case TransportReady(ec) => TerminatedKeepsQueue(c, ec);
    case ReadRequest(ec, request) => RequestKeepsQueue(c, ec, request);
    case WroteResponse(ec) => ResponseKeepsQueue(c, ec);
    case ReadFrame(ec) => TerminatedKeepsQueue(c, ec);
    case WroteFrames(ec, _) => TerminatedKeepsQueue(c, ec);
    case _ =>
  }

  lemma PoliteControl(o: Options, c: Conn, op: byte, payload: seq<byte>, reply: bool)
    requires Inv(c) && AtMostOneClose(c) && (op == CLOSE ==> WellFormedClose(payload))
             && c.internal == ProcessConnection
    ensures AtMostOneClose(ControlReceived(o, c, op, payload, reply))
  {
    hide CloseFrames, CloseSent, Carrying, Utf8.WellFormed, Ascii, Close.ExtractCode, ControlResult, Enqueued;
    NotConnecting(c);
    ApplicationSends(c, ControlResult(true, PONG, payload, [0, 0, 0, 0]), false);
    if op == CLOSE && c.state == Open {
      var c2 := c.(remoteCode := Close.ExtractCode(payload).code, remoteReason := Close.Reason(payload));
      CloseSentOnce(o, c2, Close.BLANK, [], true, true);
    }
  }

  lemma PoliteEvent(o: Options, c: Conn, e: Event)
    requires Inv(c) && Enabled(c, e) && AtMostOneClose(c) && Polite([e])
    ensures AtMostOneClose(Apply(o, c, e))
  {
    hide CloseFrames, CloseSent, Terminated, Enqueued, ControlReceived, WellFormedClose, Inv, CodeFor, Truncated,
      DataResult, ControlResult, RequestRead, ResponseWritten, ReadFailed, ResponseStarted, ShutDown, Close.Terminal;
    assert e in [e];
    TerminatedKeepsQueue(c, Some(OtherFailure));
    match e
    case Control(op, payload, reply) => PoliteControl(o, c, op, payload, reply);
    case Violation(error, reason) =>
      if c.state == Open {
        CloseSentOnce(o, c, CodeFor(error), Truncated(reason), false, Close.Terminal(CodeFor(error)));
      }
    case RequestClose(code, reason) =>
      if c.state == Open { CloseSentOnce(o, c, code, Truncated(reason), false, Close.Terminal(code)); }
    case Send(op, fin, payload) => ApplicationSends(c, DataResult(true, op, fin, payload, [0, 0, 0, 0]), false);
    case SendPrepared(message, terminal) => ApplicationSends(c, Ok(message), terminal);
    case Ping(payload) => ApplicationSends(c, ControlResult(true, PING, payload, [0, 0, 0, 0]), false);
    case Pong(payload) => ApplicationSends(c, ControlResult(true, PONG, payload, [0, 0, 0, 0]), false);
    case _ =>
      EventFollows(o, c, e);
      HandshakeKeepsQueue(o, c, e);
  }

  /** If the peer only sends usable close frames, at most one close frame is sent. */
  lemma {:induction false} OneCloseFrame(o: Options, c: Conn, es: seq<Event>)
    requires Inv(c) && AtMostOneClose(c) && Run(o, c, es) && Polite(es)
    ensures AtMostOneClose(After(o, c, es))
    decreases |es|
  {
    hide Inv, Apply, Enabled, AtMostOneClose, WellFormedClose;
    if es != [] {
      EventFollows(o, c, es[0]);
      PoliteEvent(o, c, es[0]);
      OneCloseFrame(o, Apply(o, c, es[0]), es[1..]);
    }
  }

  // ---------- what ends an established connection ----------

  /** The last message queued is a close frame, and was not there before. */
  predicate CloseQueued(c: Conn, d: Conn) {
    |d.queued| == |c.queued| + 1 && d.queued[|c.queued|].origin == FromClosing
  }

  /** The events that end a connection which is open or closing. */
  ghost predicate Ends(o: Options, c: Conn, e: Event) {
    match e
    case ReadFrame(ec) => ec.Some?
    case WroteFrames(ec, terminal) => ec.Some? || terminal
    case Violation(_, _) => o.dropOnProtocolError || c.state == Closing
    case Control(op, payload, _) =>
      op == 0x8 && if WellFormedClose(payload) then c.state == Closing && !c.wasClean else o.dropOnProtocolError
    case _ => e.Timeout? || e.Start? || e.TransportReady? || e.ReadRequest? || e.WroteResponse?
  }

  /** The handshake is clean once a close frame of the peer has been answered or has answered ours. */
  ghost predicate Cleans(o: Options, c: Conn, e: Event) {
    && e.Control? && e.op == 0x8
    && if WellFormedClose(e.payload) then c.state == Closing || |e.payload| <= 125 || o.silentClose
       else !o.dropOnProtocolError
  }

  lemma TerminatedEnds(c: Conn, ec: ErrorCode)
    ensures Terminated(c, ec).state == Closed && Terminated(c, ec).wasClean == c.wasClean
  {
  }

  lemma CloseSentWhen(o: Options, c: Conn, code: Close.Code, reason: seq<byte>, ack: bool, terminal: bool)
    requires c.state in {Open, Closing}
    ensures var d := CloseSent(o, c, code, reason, ack, terminal);
            if LocalPayload(o, c, code, reason, ack) then
              d.state == Closing && CloseQueued(c, d) && d.wasClean == (c.wasClean || ack)
            else d == c
  {
    hide ClosePayload, Carrying, LocalClose;
  }

  /** There is a close frame to send. */
  predicate LocalPayload(o: Options, c: Conn, code: Close.Code, reason: seq<byte>, ack: bool) {
    var (localCode, localReason) := LocalClose(o, c, code, reason, ack); ClosePayload(localCode, localReason).Ok?
  }

  lemma ViolationEnds(o: Options, c: Conn, error: ProcessorError, reason: seq<byte>)
    requires c.state in {Open, Closing}
    ensures var d := ProtocolError(o, c, error, reason);
            && d.wasClean == c.wasClean
            && if o.dropOnProtocolError || c.state == Closing then d.state == Closed
               else d.state == Closing && CloseQueued(c, d)
  {
    hide CloseSent, Truncated, Terminated, Close.CodeOctets;
    TerminatedEnds(c, Some(OtherFailure));
    if c.state == Open {
      CloseSentWhen(o, c, CodeFor(error), Truncated(reason), false, Close.Terminal(CodeFor(error)));
    }
  }

  lemma CloseReceivedEnds(o: Options, c: Conn, payload: seq<byte>)
    requires c.state in {Open, Closing}
    ensures var d, e := CloseReceived(o, c, payload), Control(CLOSE, payload, false);
            && (d.state == Closed <==> Ends(o, c, e))
            && (d.wasClean <==> c.wasClean || Cleans(o, c, e))
            && (!Ends(o, c, e) && c.state == Open ==>
                  if d.state == Closing then CloseQueued(c, d) else d.queued == c.queued)
  {
    hide CloseSent, Terminated, Close.ExtractCode, Close.Reason, Utf8.WellFormed, Ascii, Close.CodeOctets, LocalClose,
      ClosePayload, CloseQueued;
    var c1 := c.(remoteCode := Close.ExtractCode(payload).code);
    var c2 := c1.(remoteReason := Close.Reason(payload));
    TextLengths();
    TerminatedEnds(c1, Some(OtherFailure));
    TerminatedEnds(c2, Some(OtherFailure));
    TerminatedEnds(c2.(wasClean := true), None);
    CloseSentWhen(o, c1, Close.PROTOCOL_ERROR, Ascii("Invalid close code"), true, true);
    CloseSentWhen(o, c2, Close.PROTOCOL_ERROR, Ascii("Invalid close reason"), true, true);
    CloseSentWhen(o, c2, Close.BLANK, [], true, true);
    TextFits(o, c1, "Invalid close code");
    TextFits(o, c2, "Invalid close reason");
    if WellFormedClose(payload) { AnswerFits(o, c2, payload); }
    SameQueued(c, c1, CloseReceived(o, c, payload));
    SameQueued(c, c2, CloseReceived(o, c, payload));
  }

  lemma SameQueued(c: Conn, c2: Conn, d: Conn)
    requires c2.queued == c.queued
    ensures CloseQueued(c2, d) <==> CloseQueued(c, d)
  {
  }

  lemma TextFits(o: Options, c: Conn, text: string)
    requires (forall x :: x in text ==> x < 128 as char) && |text| <= 123
    ensures LocalPayload(o, c, Close.PROTOCOL_ERROR, Ascii(text), true)
  {
  }

  lemma AnswerFits(o: Options, c: Conn, payload: seq<byte>)
    requires WellFormedClose(payload)
    requires c.remoteCode == Close.ExtractCode(payload).code && c.remoteReason == Close.Reason(payload)
    ensures LocalPayload(o, c, Close.BLANK, [], true) <==> |payload| <= 125 || o.silentClose
  {
    hide Utf8.WellFormed, Close.CodeOctets;
  }

  /** How an established connection goes on: which events end it, and what makes it close. */
  lemma EstablishedStep(o: Options, c: Conn, e: Event)
    requires Inv(c) && Enabled(c, e) && c.state in {Open, Closing}
    ensures var d := Apply(o, c, e);
            && (d.state == Closed <==> Ends(o, c, e))
            && (d.wasClean <==> c.wasClean || Cleans(o, c, e))
            && (c.state == Open && !Ends(o, c, e) ==> (d.state == Closing <==> CloseQueued(c, d)))
  {
    hide CloseSent, Terminated, CloseReceived, Truncated, CodeFor, Close.Terminal, DataResult, ControlResult,
      WellFormedClose, ProtocolError, QueueInv, HandlersInv, CloseQueued, LocalPayload;
    TerminatedEnds(c, None);
    TerminatedEnds(c, Some(InvalidState));
    TerminatedEnds(c, Some(OtherFailure));
    AppSends(c);
    match e
    case TransportReady(ec) => TerminatedEnds(c, ec);
    case ReadRequest(ec, _) => TerminatedEnds(c, ec);
    case WroteResponse(ec) => TerminatedEnds(c, ec);
    case ReadFrame(ec) => TerminatedEnds(c, ec); NothingQueued(c, c);
    case WroteFrames(ec, _) => TerminatedEnds(c, ec); NothingQueued(c, c);
    case Violation(error, reason) => ViolationEnds(o, c, error, reason);
    case Control(op, payload, _) =>
      if op == CLOSE { CloseReceivedEnds(o, c, payload); }
      NothingQueued(c, Apply(o, c, e));
    case RequestClose(code, reason) =>
      CloseSentWhen(o, c, code, Truncated(reason), false, Close.Terminal(code));
      NothingQueued(c, c);
    case SetStatus(_) => NothingQueued(c, Apply(o, c, e));
    case DeferResponse => NothingQueued(c, Apply(o, c, e));
    case SendResponse => NothingQueued(c, Apply(o, c, e));
    case _ =>
  }

  lemma NothingQueued(c: Conn, d: Conn)
    ensures d.queued == c.queued ==> !CloseQueued(c, d)
  {
  }

  lemma AppSends(c: Conn)
    ensures forall r, t :: var d := Enqueued(c, r, t);
                           d.state == c.state && d.wasClean == c.wasClean && !CloseQueued(c, d)
  {
  }
}
