/**
 The life of a server connection: the opening handshake, the closing handshake (RFC 6455, sections
 5.5.1 and 7.1), termination and the application's handlers. Every handler of the transport and
 every call of the application is one atomic event; the octets of reads, the completion of writes
 and the expiry of timers are events with arbitrary parameters.
 */
module Lifecycle {
  import opened Bytes
  import opened Frame
  import opened Sender
  import opened Wire
  import Close
  import Utf8

  // ---------- the fields of a connection ----------

  datatype SessionState = Connecting | Open | Closing | Closed

  datatype InternalState = UserInit | TransportInit | ReadHttpRequest | ProcessHttpRequest | ProcessConnection

  datatype Failure = Eof | InvalidState | HttpConnectionEnded | OtherFailure

  type ErrorCode = Option<Failure>

  /** How far the answer to a plain HTTP request is. */
  datatype HttpState = HttpInit | HttpDeferred | HttpBodyWritten | HttpClosed

  datatype TerminateStatus = FailedStatus | ClosedStatus

  datatype Callback = OpenHandler | FailHandler | CloseHandler

  datatype Origin = FromApplication | FromClosing

  /** A message given to the write queue. */
  datatype Sent = Sent(origin: Origin, message: Prepared, terminal: bool)

  datatype Options = Options(dropOnProtocolError: bool, silentClose: bool)

  const SWITCHING_PROTOCOLS: nat := 101
  const INTERNAL_SERVER_ERROR: nat := 500

  /** Of the local close code and reason only what the library itself sends is kept. */
  datatype Conn = Conn(
    state: SessionState, internal: InternalState, isHttp: bool, http: HttpState, status: nat, ec: ErrorCode,
    wasClean: bool,
    remoteCode: Close.Code, remoteReason: seq<byte>,
    queued: seq<Sent>, shutdowns: seq<TerminateStatus>, completed: nat, called: seq<Callback>)

  const INIT: Conn :=
    Conn(Connecting, UserInit, false, HttpInit, 0, None, false, Close.ABNORMAL_CLOSE, [], [], [], 0, [])

  // ---------- termination ----------

  function Terminated(c: Conn, ec: ErrorCode): Conn {
    var c := if ec.Some? then c.(ec := ec) else c;
    var c := if c.isHttp then c.(http := HttpClosed) else c;
    match c.state
    case Closed => c
    case Connecting => c.(state := Closed, shutdowns := c.shutdowns + [FailedStatus])
    case _ => c.(state := Closed, shutdowns := c.shutdowns + [ClosedStatus])
  }

  /** The transport has shut down. */
  function ShutDown(c: Conn, status: TerminateStatus): Conn {
    if status.ClosedStatus? then c.(called := c.called + [CloseHandler])
    else if c.ec == Some(HttpConnectionEnded) then c
    else c.(called := c.called + [FailHandler])
  }

  // ---------- sending ----------

  function Enqueued(c: Conn, r: Result<Prepared>, terminal: bool): Conn {
    if c.state != Open || r.Err? then c
    else c.(queued := c.queued + [Sent(FromApplication, r.value, terminal)])
  }

  /** A frame queued by the application, or by the ping it received. */
  function FromApp(f: WireFrame): Sent
    requires Sendable(f)
  {
    Sent(FromApplication, Carrying(f), false)
  }

  function Ascii(text: string): seq<byte>
    requires forall c :: c in text ==> c < 128 as char
  {
    seq(|text|, i requires 0 <= i < |text| => assert text[i] in text; ToByte(text[i] as int))
  }

  /** The code and reason a close frame is to carry. */
  function LocalClose(o: Options, c: Conn, code: Close.Code, reason: seq<byte>, ack: bool): (Close.Code, seq<byte>) {
    if o.silentClose then (Close.NO_STATUS, [])
    else if code != Close.BLANK then (code, reason)
    else if !ack then (Close.NO_STATUS, [])
    else if c.remoteCode == Close.NO_STATUS then (Close.NORMAL, [])
    else (c.remoteCode, c.remoteReason)
  }

  function CloseFrame(payload: seq<byte>): Prepared
    requires |payload| < TWO_64
  {
    Carrying(WireFrame(CLOSE, true, None, payload))
  }

  function CloseSent(o: Options, c: Conn, code: Close.Code, reason: seq<byte>, ack: bool, terminal: bool): Conn {
    var (localCode, localReason) := LocalClose(o, c, code, reason, ack);
    match ClosePayload(localCode, localReason)
    case Err(_) => c
    case Ok(payload) =>
      c.(state := Closing, wasClean := c.wasClean || ack,
         queued := c.queued + [Sent(FromClosing, CloseFrame(payload), terminal)])
  }

  /** A close frame has room for 123 octets of a reason. */
  function Truncated(reason: seq<byte>): (r: seq<byte>)
    ensures r <= reason && |r| == if |reason| < 123 then |reason| else 123
  {
    if |reason| <= PAYLOAD_SIZE_BASIC - 2 then reason else reason[..PAYLOAD_SIZE_BASIC - 2]
  }

  function CloseRequested(o: Options, c: Conn, code: Close.Code, reason: seq<byte>): Conn {
    if c.state != Open then c else CloseSent(o, c, code, Truncated(reason), false, Close.Terminal(code))
  }

  // ---------- receiving ----------

  /** A close payload whose code may be used and whose reason is UTF-8. */
  ghost predicate WellFormedClose(payload: seq<byte>) {
    Close.ExtractCode(payload).error.None? && Utf8.WellFormed(Close.Reason(payload))
  }

  function InvalidClose(o: Options, c: Conn, text: string): Conn
    requires forall c :: c in text ==> c < 128 as char
  {
    if o.dropOnProtocolError then Terminated(c, Some(OtherFailure))
    else CloseSent(o, c, Close.PROTOCOL_ERROR, Ascii(text), true, true)
  }

  ghost function CloseReceived(o: Options, c: Conn, payload: seq<byte>): Conn {
    var x := Close.ExtractCode(payload);
    var c := c.(remoteCode := x.code);
    if x.error.Some? then InvalidClose(o, c, "Invalid close code")
    else
      var c := c.(remoteReason := Close.Reason(payload));
      if !Utf8.WellFormed(Close.Reason(payload)) then InvalidClose(o, c, "Invalid close reason")
      else if c.state == Open then CloseSent(o, c, Close.BLANK, [], true, true)
      else if c.state == Closing && !c.wasClean then Terminated(c.(wasClean := true), None)
      else c
  }

  /** What a control frame does; reply is the answer of the ping handler. */
  ghost function ControlReceived(o: Options, c: Conn, op: byte, payload: seq<byte>, reply: bool): Conn {
    if c.state == Closed || (op != CLOSE && c.state != Open) then c
    else if op == PING then (if reply then Enqueued(c, ControlResult(true, PONG, payload, [0, 0, 0, 0]), false) else c)
    else if op == CLOSE then CloseReceived(o, c, payload)
    else c
  }

  /** The close code that reports an error of the protocol processor. */
  function CodeFor(e: ProcessorError): Close.Code {
    match e
    case ControlTooBig | InvalidOpcode | InvalidRsvBit | FragmentedControl | InvalidContinuation | MaskingRequired
       | MaskingForbidden | ReservedCloseCode | InvalidCloseCode => Close.PROTOCOL_ERROR
    case InvalidPayload | InvalidUtf8 => Close.INVALID_PAYLOAD
    case MessageTooBig => Close.MESSAGE_TOO_BIG
    case _ => Close.INTERNAL_ENDPOINT_ERROR
  }

  /** A protocol error is answered with a close frame, and with termination if that is not possible. */
  function ProtocolError(o: Options, c: Conn, e: ProcessorError, reason: seq<byte>): Conn {
    var code := CodeFor(e);
    if o.dropOnProtocolError then Terminated(c, Some(OtherFailure))
    else if c.state == Open && CloseRequested(o, c, code, reason).state == Closing then
      CloseRequested(o, c, code, reason)
    else Terminated(c, Some(OtherFailure))
  }

  // ---------- the opening handshake ----------

  /**
   What reading the request came to: more needed, refused early, or complete. A complete request is
   plain HTTP if the HTTP handler was called; the application may defer the response.
   */
  datatype Request =
    | Incomplete
    | Refused(status: nat, why: Failure)
    | Complete(http: bool, status: nat, ec: ErrorCode, defers: bool)

  function ResponseStarted(c: Conn, ec: ErrorCode): Conn {
    if ec == Some(HttpConnectionEnded) then c
    else if c.status == 0 then c.(status := INTERNAL_SERVER_ERROR, ec := Some(OtherFailure))
    else c.(ec := ec)
  }

  function RequestRead(c: Conn, ec: ErrorCode, request: Request): Conn {
    if ec.None? && c.state == Closed then c
    else if ec.None? && (c.state != Connecting || c.internal != ReadHttpRequest) then Terminated(c, Some(InvalidState))
    else if ec == Some(Eof) && c.state == Closed then c
    else if ec.Some? then Terminated(c, ec)
    else
      match request
      case Incomplete => c
      case Refused(status, why) => ResponseStarted(c.(status := status, internal := ProcessHttpRequest), Some(why))
      case Complete(http, status, ec, defers) =>
        var c := c.(internal := ProcessHttpRequest, isHttp := c.isHttp || http, status := status);
        var c := if defers then c.(http := HttpDeferred) else c;
        if !c.isHttp || c.http == HttpInit then ResponseStarted(c, ec) else c
  }

  /** The application sends a response it has deferred. */
  function ResponseSent(c: Conn): Conn {
    if c.http != HttpDeferred then c else ResponseStarted(c.(http := HttpBodyWritten), None)
  }

  function ResponseWritten(c: Conn, ec: ErrorCode): Conn {
    if ec.None? && c.state == Closed then c
    else if ec.None? && (c.state != Connecting || c.internal != ProcessHttpRequest) then
      Terminated(c, Some(InvalidState))
    else if ec == Some(Eof) && c.state == Closed then c
    else if ec.Some? then Terminated(c, ec)
    else if c.status != SWITCHING_PROTOCOLS then
      var c := if c.isHttp then c.(ec := Some(HttpConnectionEnded)) else c;
      Terminated(c, c.ec)
    else c.(internal := ProcessConnection, state := Open, called := c.called + [OpenHandler])
  }

  function ReadFailed(c: Conn, ec: Failure): Conn {
    if (ec == Eof || ec == InvalidState) && c.state == Closed then c else Terminated(c, Some(ec))
  }

  // ---------- events ----------

  datatype Event =
    | Start
    | TransportReady(ec: ErrorCode)
    | ReadRequest(ec: ErrorCode, request: Request)
    | SetStatus(status: nat)
    | DeferResponse
    | SendResponse
    | WroteResponse(ec: ErrorCode)
    | ReadFrame(ec: ErrorCode)
    | Violation(error: ProcessorError, reason: seq<byte>)
    | Control(op: byte, payload: seq<byte>, reply: bool)
    | Send(op: byte, fin: bool, payload: seq<byte>)
    | SendPrepared(message: Prepared, terminal: bool)
    | Ping(payload: seq<byte>)
    | Pong(payload: seq<byte>)
    | RequestClose(code: Close.Code, reason: seq<byte>)
    | WroteFrames(ec: ErrorCode, terminal: bool)
    | Timeout
    | TransportDown

  /** No error code but the connection's own says that an HTTP connection has ended. */
  predicate NotEnded(ec: ErrorCode) { ec != Some(HttpConnectionEnded) }

  predicate Enabled(c: Conn, e: Event) {
    match e
    case TransportReady(ec) => NotEnded(ec)
    case ReadRequest(ec, request) =>
      && NotEnded(ec) && (request.Refused? ==> request.why != HttpConnectionEnded)
      && (request.Complete? && !request.http ==> NotEnded(request.ec))
    case WroteResponse(ec) => NotEnded(ec)
    case ReadFrame(ec) => NotEnded(ec)
    case Violation(_, _) => c.internal == ProcessConnection
    case Control(_, _, _) => c.internal == ProcessConnection
    case Send(op, _, payload) => op <= 0xF && |payload| < TWO_64
    case WroteFrames(ec, _) => NotEnded(ec)
    case TransportDown => c.completed < |c.shutdowns|
    case _ => true
  }

  ghost function Apply(o: Options, c: Conn, e: Event): Conn
    requires Enabled(c, e)
  {
    match e
    case Start => if c.internal != UserInit then Terminated(c, Some(InvalidState)) else c.(internal := TransportInit)
    case TransportReady(ec) =>
      if c.internal != TransportInit then Terminated(c, Some(InvalidState))
      else if ec.Some? then Terminated(c, ec)
      else c.(internal := ReadHttpRequest)
    case ReadRequest(ec, request) => RequestRead(c, ec, request)
    case SetStatus(status) => if c.internal == ProcessHttpRequest then c.(status := status) else c
    case DeferResponse => c.(http := HttpDeferred)
    case SendResponse => ResponseSent(c)
    case WroteResponse(ec) => ResponseWritten(c, ec)
    case ReadFrame(ec) =>
      if ec.Some? then ReadFailed(c, ec.value)
      else if c.internal != ProcessConnection then ReadFailed(c, InvalidState)
      else c
    case Violation(error, reason) => ProtocolError(o, c, error, reason)
    case Control(op, payload, reply) => ControlReceived(o, c, op, payload, reply)
    case Send(op, fin, payload) => Enqueued(c, DataResult(true, op, fin, payload, [0, 0, 0, 0]), false)
    case SendPrepared(message, terminal) => Enqueued(c, Ok(message), terminal)
    case Ping(payload) => Enqueued(c, ControlResult(true, PING, payload, [0, 0, 0, 0]), false)
    case Pong(payload) => Enqueued(c, ControlResult(true, PONG, payload, [0, 0, 0, 0]), false)
    case RequestClose(code, reason) => CloseRequested(o, c, code, reason)
    case WroteFrames(ec, terminal) =>
      if ec.Some? then Terminated(c, ec) else if terminal then Terminated(c, None) else c
    case Timeout => Terminated(c, Some(OtherFailure))
    case TransportDown => ShutDown(c, c.shutdowns[c.completed]).(completed := c.completed + 1)
  }

  ghost predicate Run(o: Options, c: Conn, es: seq<Event>)
    decreases |es|
  {
    es == [] || (Enabled(c, es[0]) && Run(o, Apply(o, c, es[0]), es[1..]))
  }

  ghost function After(o: Options, c: Conn, es: seq<Event>): Conn
    requires Run(o, c, es)
    decreases |es|
  {
    if es == [] then c else After(o, Apply(o, c, es[0]), es[1..])
  }

  // ---------- what every run keeps ----------

  function Rank(s: SessionState): nat {
    match s case Connecting => 0 case Open => 1 case Closing => 2 case Closed => 3
  }

  /** One shutdown, issued exactly when the connection is closed. */
  predicate ShutdownInv(c: Conn) {
    && |c.shutdowns| == (if c.state == Closed then 1 else 0) && c.completed <= |c.shutdowns|
    && (c.internal == ProcessConnection ==> c.state != Connecting)
    && (c.state in {Open, Closing} ==> c.internal == ProcessConnection)
    && (c.state in {Connecting, Open} ==> !c.wasClean)
  }

  /** The handlers called so far follow from the state, the kind of the shutdown and whether it is over. */
  predicate HandlersInv(c: Conn) {
    && (c.ec == Some(HttpConnectionEnded) ==>
          c.isHttp && c.state == Closed && |c.shutdowns| == 1 && c.shutdowns[0] == FailedStatus)
    && match c.state
       case Connecting => c.called == []
       case Open => c.called == [OpenHandler]
       case Closing => c.called == [OpenHandler]
       case Closed =>
         if |c.shutdowns| == 1 && c.shutdowns[0] == ClosedStatus then
           c.called == if c.completed == 0 then [OpenHandler] else [OpenHandler, CloseHandler]
         else if c.completed == 0 then c.called == []
         else c.called == [FailHandler] || (c.called == [] && c.isHttp)
  }

  /** Nothing of the application comes after a close frame, which are only sent past the open state. */
  predicate QueueInv(c: Conn) {
    && (forall i, j :: 0 <= i < j < |c.queued| && c.queued[i].origin == FromClosing ==>
          c.queued[j].origin == FromClosing)
    && (c.state in {Connecting, Open} ==> forall i :: 0 <= i < |c.queued| ==> c.queued[i].origin == FromApplication)
  }

  predicate Inv(c: Conn) { ShutdownInv(c) && HandlersInv(c) && QueueInv(c) }

  /** The state never goes back, nothing queued or called is undone, and the invariant holds again. */
  predicate Later(c: Conn, d: Conn) {
    Inv(d) && Rank(c.state) <= Rank(d.state) && c.queued <= d.queued && c.called <= d.called
  }

  /** The application adds to the queue in the open state only, the closing handshake not before or after it. */
  predicate SentInTime(c: Conn, d: Conn) {
    forall k :: |c.queued| <= k < |d.queued| ==>
      if d.queued[k].origin == FromApplication then c.state == Open
      else c.state in {Open, Closing} && d.state == Closing
  }

  predicate Follows(c: Conn, d: Conn) { Later(c, d) && SentInTime(c, d) }

  lemma TerminatedFollows(c: Conn, ec: ErrorCode)
    requires Inv(c) && (NotEnded(ec) || (c.isHttp && c.state == Connecting))
    ensures Follows(c, Terminated(c, ec))
  {
  }

  lemma EnqueuedFollows(c: Conn, r: Result<Prepared>, terminal: bool)
    requires Inv(c)
    ensures Follows(c, Enqueued(c, r, terminal))
  {
  }

  lemma CloseSentFollows(o: Options, c: Conn, code: Close.Code, reason: seq<byte>, ack: bool, terminal: bool)
    requires Inv(c) && c.state in {Open, Closing}
    ensures Follows(c, CloseSent(o, c, code, reason, ack, terminal))
  {
    hide ClosePayload, Carrying, LocalClose;
  }

  /** Only state, queue and calls of the earlier connection count. */
  lemma Transfer(c: Conn, c2: Conn, d: Conn)
    requires Follows(c2, d) && c2.state == c.state && c2.queued == c.queued && c2.called == c.called
    ensures Follows(c, d)
  {
  }

  lemma Stays(c: Conn)
    requires Inv(c)
    ensures Follows(c, c)
  {
  }

  lemma CloseReceivedFollows(o: Options, c: Conn, payload: seq<byte>)
    requires Inv(c) && c.state in {Open, Closing}
    ensures Follows(c, CloseReceived(o, c, payload))
  {
    hide Inv, Follows, Close.ExtractCode, Utf8.WellFormed, Ascii, CloseSent, Terminated;
    var c1 := c.(remoteCode := Close.ExtractCode(payload).code);
    var c2 := c1.(remoteReason := Close.Reason(payload));
    RemoteDoesNotMatter(c);
    TerminatedFollows(c1, Some(OtherFailure));
    TerminatedFollows(c2, Some(OtherFailure));
    CloseSentFollows(o, c1, Close.PROTOCOL_ERROR, Ascii("Invalid close code"), true, true);
    CloseSentFollows(o, c2, Close.PROTOCOL_ERROR, Ascii("Invalid close reason"), true, true);
    CloseSentFollows(o, c2, Close.BLANK, [], true, true);
    Stays(c2);
    var d := CloseReceived(o, c, payload);
    if c.state == Closing {
      CleanDoesNotMatter(c2);
      TerminatedFollows(c2.(wasClean := true), None);
      if Follows(c2.(wasClean := true), d) { Transfer(c, c2.(wasClean := true), d); }
    }
    if Follows(c1, d) { Transfer(c, c1, d); }
    if Follows(c2, d) { Transfer(c, c2, d); }
  }

  lemma ControlFollows(o: Options, c: Conn, op: byte, payload: seq<byte>, reply: bool)
    requires Inv(c) && c.internal == ProcessConnection
    ensures Follows(c, ControlReceived(o, c, op, payload, reply))
  {
    hide Inv, Follows, CloseReceived, ControlResult, Enqueued;
    NotConnecting(c);
    Stays(c);
    EnqueuedFollows(c, ControlResult(true, PONG, payload, [0, 0, 0, 0]), false);
    if c.state in {Open, Closing} { CloseReceivedFollows(o, c, payload); }
  }

  lemma NotConnecting(c: Conn)
    requires Inv(c) && c.internal == ProcessConnection
    ensures c.state != Connecting
  {
  }

  lemma RemoteDoesNotMatter(c: Conn)
    requires Inv(c)
    ensures forall code: Close.Code, reason :: Inv(c.(remoteCode := code, remoteReason := reason))
    ensures forall code: Close.Code :: Inv(c.(remoteCode := code))
  {
  }

  lemma CleanDoesNotMatter(c: Conn)
    requires Inv(c) && c.state == Closing
    ensures Inv(c.(wasClean := true))
  {
  }

  lemma RequestFollows(c: Conn, ec: ErrorCode, request: Request)
    requires Inv(c) && Enabled(c, ReadRequest(ec, request))
    ensures Follows(c, RequestRead(c, ec, request))
  {
    TerminatedFollows(c, Some(InvalidState));
    TerminatedFollows(c, ec);
  }

  lemma EcIsOverwritten(c: Conn)
    ensures forall a, b: Failure :: Terminated(c.(ec := Some(a)), Some(b)) == Terminated(c, Some(b))
  {
  }

  lemma Opens(c: Conn)
    requires Inv(c) && c.state == Connecting
    ensures Follows(c, c.(internal := ProcessConnection, state := Open, called := c.called + [OpenHandler]))
  {
  }

  lemma ResponseFollows(c: Conn, ec: ErrorCode)
    requires Inv(c) && NotEnded(ec)
    ensures Follows(c, ResponseWritten(c, ec))
  {
    hide Terminated, Inv, Follows;
    Stays(c);
    TerminatedFollows(c, Some(InvalidState));
    TerminatedFollows(c, ec);
    if c.state == Connecting {
      Opens(c);
      OwnError(c);
      TerminatedFollows(c, c.ec);
      if c.isHttp {
        TerminatedFollows(c, Some(HttpConnectionEnded));
        EcIsOverwritten(c);
      }
    }
  }

  lemma OwnError(c: Conn)
    requires Inv(c) && c.state == Connecting
    ensures NotEnded(c.ec)
  {
  }

  lemma SameQueue(c: Conn, d: Conn)
    requires QueueInv(c) && d.state == c.state && d.queued == c.queued
    ensures QueueInv(d)
  {
  }

  lemma DownFollows(o: Options, c: Conn)
    requires Inv(c) && Enabled(c, TransportDown)
    ensures Follows(c, Apply(o, c, TransportDown))
  {
    hide Terminated, ControlReceived, ProtocolError, CloseRequested, RequestRead, ResponseWritten, ReadFailed, QueueInv,
      Enqueued, DataResult, ControlResult;
    assert QueueInv(Apply(o, c, TransportDown)) by { SameQueue(c, Apply(o, c, TransportDown)); }
  }

  lemma StartFollows(o: Options, c: Conn, e: Event)
    requires Inv(c) && (e.Start? || e.TransportReady? || e.SetStatus? || e.DeferResponse? || e.SendResponse?)
             && Enabled(c, e)
    ensures Follows(c, Apply(o, c, e))
  {
    hide Terminated, ControlReceived, ProtocolError, CloseRequested, RequestRead, ResponseWritten, ShutDown, ReadFailed,
      Enqueued, DataResult, ControlResult, Inv, Follows, ResponseStarted;
    TerminatedFollows(c, Some(InvalidState));
    if e.TransportReady? { TerminatedFollows(c, e.ec); }
    HandshakeFields(c);
    var c2 := c.(http := HttpBodyWritten);
    ResponseStartedFollows(c2, None);
    if Follows(c2, Apply(o, c, e)) { Transfer(c, c2, Apply(o, c, e)); }
  }

  lemma HandshakeFields(c: Conn)
    requires Inv(c)
    ensures Follows(c, c) && (forall h :: Inv(c.(http := h)) && Follows(c, c.(http := h)))
    ensures forall n: nat :: Follows(c, c.(status := n))
    ensures c.internal == UserInit ==> Follows(c, c.(internal := TransportInit))
    ensures c.internal == TransportInit ==> Follows(c, c.(internal := ReadHttpRequest))
  {
  }

  /** Status, HTTP state, remote codes and an error code other than the connection's own do not matter. */
  lemma SameEssentials(c: Conn, d: Conn)
    requires Inv(c) && d.state == c.state && d.internal == c.internal && d.isHttp == c.isHttp
    requires d.shutdowns == c.shutdowns && d.completed == c.completed && d.wasClean == c.wasClean
    requires d.queued == c.queued && d.called == c.called && (NotEnded(d.ec) || d.ec == c.ec)
    ensures Follows(c, d)
  {
  }

  lemma ResponseStartedFollows(c: Conn, ec: ErrorCode)
    requires Inv(c)
    ensures Follows(c, ResponseStarted(c, ec))
  {
    hide Inv, Follows;
    SameEssentials(c, ResponseStarted(c, ec));
  }

  lemma EventFollows(o: Options, c: Conn, e: Event)
    requires Inv(c) && Enabled(c, e)
    ensures Follows(c, Apply(o, c, e))
  {
    hide Inv, Carrying, Terminated, Enqueued, CloseSent, ControlReceived, RequestRead, ResponseWritten, ResponseStarted,
      ShutDown, DataResult, ControlResult, Truncated, ClosePayload, CodeFor, Close.Terminal;
    TerminatedFollows(c, None);
    TerminatedFollows(c, Some(InvalidState));
    TerminatedFollows(c, Some(OtherFailure));
    match e
    case ReadRequest(ec, request) => RequestFollows(c, ec, request);
    case WroteResponse(ec) => ResponseFollows(c, ec);
    case ReadFrame(ec) => TerminatedFollows(c, ec);
    case WroteFrames(ec, _) => TerminatedFollows(c, ec);
    case Violation(error, reason) =>
      if c.state == Open {
        CloseSentFollows(o, c, CodeFor(error), Truncated(reason), false, Close.Terminal(CodeFor(error)));
      }
    case Control(op, payload, reply) => ControlFollows(o, c, op, payload, reply);
    case Send(op, fin, payload) => EnqueuedFollows(c, DataResult(true, op, fin, payload, [0, 0, 0, 0]), false);
    case SendPrepared(message, terminal) => EnqueuedFollows(c, Ok(message), terminal);
    case Ping(payload) => EnqueuedFollows(c, ControlResult(true, PING, payload, [0, 0, 0, 0]), false);
    case Pong(payload) => EnqueuedFollows(c, ControlResult(true, PONG, payload, [0, 0, 0, 0]), false);
    case RequestClose(code, reason) =>
      if c.state == Open { CloseSentFollows(o, c, code, Truncated(reason), false, Close.Terminal(code)); }
    case Timeout =>
    case TransportDown => DownFollows(o, c);
    case _ => StartFollows(o, c, e);
  }

  lemma {:induction false} RunFollows(o: Options, c: Conn, es: seq<Event>)
    requires Inv(c) && Run(o, c, es)
    ensures Later(c, After(o, c, es))
    decreases |es|
  {
    hide Inv, Apply, Enabled;
    if es != [] {
      EventFollows(o, c, es[0]);
      RunFollows(o, Apply(o, c, es[0]), es[1..]);
    }
  }

  /** Connecting, open, closing, closed: never back, however the events come. */
  lemma StateOnlyMovesForward(o: Options, es: seq<Event>, more: seq<Event>)
    requires Run(o, INIT, es) && Run(o, After(o, INIT, es), more)
    ensures Rank(After(o, INIT, es).state) <= Rank(After(o, After(o, INIT, es), more).state)
  {
    hide After, Apply;
    InitialInv();
    RunFollows(o, INIT, es);
    RunFollows(o, After(o, INIT, es), more);
  }

  /** Nothing the application sends enters the write queue after a close frame. */
  lemma NothingAfterClose(o: Options, es: seq<Event>)
    requires Run(o, INIT, es)
    ensures var q := After(o, INIT, es).queued;
            forall i, j :: 0 <= i < j < |q| && q[i].origin == FromClosing ==> q[j].origin == FromClosing
  {
    hide After, Apply;
    InitialInv();
    RunFollows(o, INIT, es);
  }

  // ---------- points of a run ----------

  lemma {:induction false} RunConcat(o: Options, c: Conn, a: seq<Event>, b: seq<Event>)
    ensures Run(o, c, a + b) <==> Run(o, c, a) && Run(o, After(o, c, a), b)
    ensures Run(o, c, a + b) ==> After(o, c, a + b) == After(o, After(o, c, a), b)
    decreases |a|
  {
    hide Apply, Enabled;
    if a == [] {
      assert a + b == b;
    } else {
      assert (a + b)[0] == a[0] && (a + b)[1..] == a[1..] + b;
      if Enabled(c, a[0]) { RunConcat(o, Apply(o, c, a[0]), a[1..], b); }
    }
  }

  lemma PrefixRuns(o: Options, es: seq<Event>, i: nat)
    requires Run(o, INIT, es) && i <= |es|
    ensures Run(o, INIT, es[..i])
  {
    hide Run;
    assert es == es[..i] + es[i..];
    RunConcat(o, INIT, es[..i], es[i..]);
  }

  /** The connection before event i of a run. */
  ghost function At(o: Options, es: seq<Event>, i: nat): Conn
    requires Run(o, INIT, es) && i <= |es|
  {
    PrefixRuns(o, es, i);
    After(o, INIT, es[..i])
  }

  lemma OneEvent(o: Options, c: Conn, e: Event)
    ensures Run(o, c, [e]) <==> Enabled(c, e)
    ensures Run(o, c, [e]) ==> After(o, c, [e]) == Apply(o, c, e)
  {
    hide Apply, Enabled;
    assert [e][1..] == [];
    if Enabled(c, e) { assert Run(o, Apply(o, c, e), []) && After(o, Apply(o, c, e), []) == Apply(o, c, e); }
  }

  lemma NextAt(o: Options, es: seq<Event>, i: nat)
    requires Run(o, INIT, es) && i < |es|
    ensures Enabled(At(o, es, i), es[i]) && At(o, es, i + 1) == Apply(o, At(o, es, i), es[i])
    ensures Inv(At(o, es, i)) && Inv(At(o, es, i + 1))
  {
    hide Run, After, Apply, Enabled, Inv;
    PrefixRuns(o, es, i);
    PrefixRuns(o, es, i + 1);
    assert es[..i + 1] == es[..i] + [es[i]];
    RunConcat(o, INIT, es[..i], [es[i]]);
    OneEvent(o, At(o, es, i), es[i]);
    InitialInv();
    RunFollows(o, INIT, es[..i]);
    EventFollows(o, At(o, es, i), es[i]);
  }

  lemma InitialInv()
    ensures Inv(INIT)
  {
  }

  lemma ThreeEvents(o: Options, c: Conn, a: Event, b: Event, e: Event)
    requires Enabled(c, a) && Enabled(Apply(o, c, a), b) && Enabled(Apply(o, Apply(o, c, a), b), e)
    ensures Run(o, c, [a, b, e]) && After(o, c, [a, b, e]) == Apply(o, Apply(o, Apply(o, c, a), b), e)
  {
    hide Apply, Enabled;
    var c1, c2 := Apply(o, c, a), Apply(o, Apply(o, c, a), b);
    assert [a, b, e][1..] == [b, e] && [b, e][1..] == [e] && [e][1..] == [];
    assert Run(o, Apply(o, c2, e), []) && Run(o, c2, [e]) && Run(o, c1, [b, e]);
    assert After(o, c2, [e]) == Apply(o, c2, e) && After(o, c1, [b, e]) == After(o, c2, [e]);
  }

  /** The opening handshake up to the response. */
  lemma Handshaken(o: Options, http: bool, status: nat)
    requires status != 0
    ensures var es := [Start, TransportReady(None), ReadRequest(None, Complete(http, status, None, false))];
            && Run(o, INIT, es)
            && After(o, INIT, es) == INIT.(internal := ProcessHttpRequest, isHttp := http, status := status)
  {
    hide ControlReceived, ProtocolError, CloseRequested, DataResult, ControlResult, Run, After;
    ThreeEvents(o, INIT, Start, TransportReady(None), ReadRequest(None, Complete(http, status, None, false)));
  }
}
