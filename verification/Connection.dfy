/** The handlers and calls of a server connection, as they change its fields. */
module Connection {
  import opened Bytes
  import opened CloseHandshake
  import opened Frame
  import opened Lifecycle
  import opened Sender
  import opened Wire
  import Codes = Close
  import Utf8

  class Connection {
    const options: Options
    var state: SessionState
    var internal: InternalState
    var isHttp: bool
    var http: HttpState
    var status: nat
    var ec: ErrorCode
    var wasClean: bool
    var remoteCode: Codes.Code
    var remoteReason: seq<byte>
    var localCode: Codes.Code
    var localReason: seq<byte>
    /** What was given to the write queue. */
    var queued: seq<Sent>
    /** What was asked of the transport, how much of it is done, and which handlers were called. */
    var shutdowns: seq<TerminateStatus>
    var completed: nat
    var called: seq<Callback>

    constructor (options: Options)
      ensures Valid() && View() == INIT && this.options == options
    {
      this.options := options;
      state, internal, isHttp, http, status, ec, wasClean := Connecting, UserInit, false, HttpInit, 0, None, false;
      remoteCode, remoteReason, localCode, localReason := Codes.ABNORMAL_CLOSE, [], Codes.ABNORMAL_CLOSE, [];
      queued, shutdowns, completed, called := [], [], 0, [];
      new;
      InitialInv();
    }

    function View(): Conn
      reads this
    {
      Conn(state, internal, isHttp, http, status, ec, wasClean, remoteCode, remoteReason, queued, shutdowns, completed,
           called)
    }

    /** At most one shutdown, handlers called as the state says, close frames after everything else. */
    predicate Valid()
      reads this
    {
      Inv(View())
    }

    /** So far only messages of the application have been queued. */
    predicate NoCloseFrame()
      reads this
    {
      forall m :: m in queued ==> m.origin == FromApplication
    }

    // ---------- termination ----------

    method Terminate(ec: ErrorCode)
      requires Valid() && (NotEnded(ec) || (isHttp && state == Connecting))
      modifies this
      ensures Valid() && Follows(old(View()), View()) && View() == Terminated(old(View()), ec)
      ensures state == Closed && |shutdowns| == 1 && queued == old(queued) && called == old(called)
      ensures old(state) != Closed ==> (shutdowns[0] == FailedStatus <==> called == [])
      ensures this.ec == (if ec.Some? then ec else old(this.ec)) && (isHttp ==> http == HttpClosed)
    {
      TerminatedMeans(View(), ec);
      hide Inv, Follows;
      if ec.Some? {
        this.ec := ec;
        localCode := Codes.ABNORMAL_CLOSE;
      }
      if isHttp {
        http := HttpClosed;
      }
      var status;
      if state == Connecting {
        state := Closed;
        status := FailedStatus;
      } else if state != Closed {
        state := Closed;
        status := ClosedStatus;
      } else {
        return;
      }
      shutdowns := shutdowns + [status];
    }

    /** The transport has shut down, which happens once. */
    method HandleTerminate()
      requires Valid() && completed < |shutdowns|
      modifies this`called, this`completed
      ensures Valid() && Follows(old(View()), View()) && View() == Apply(options, old(View()), TransportDown)
      ensures completed == |shutdowns| == 1
      ensures called == if old(called) == [OpenHandler] then [OpenHandler, CloseHandler]
                        else if ec == Some(HttpConnectionEnded) then [] else [FailHandler]
    {
      DownMeans(options, View());
      hide Inv, Follows, Apply, Enabled;
      var status := shutdowns[completed];
      if status == FailedStatus {
        if ec != Some(HttpConnectionEnded) {
          called := called + [FailHandler];
        }
      } else {
        called := called + [CloseHandler];
      }
      completed := completed + 1;
    }

    // ---------- sending ----------

    method Send(op: byte, fin: bool, payload: seq<byte>) returns (ok: bool)
      requires Valid() && op <= 0xF && |payload| < TWO_64
      modifies this`queued
      ensures Valid() && Follows(old(View()), View())
      ensures View() == Enqueued(old(View()), DataResult(true, op, fin, payload, [0, 0, 0, 0]), false)
      ensures ok <==> state == Open && op < 0x8 && (op == 0x1 ==> Utf8.WellFormed(payload))
      ensures ok ==> NoCloseFrame()
      ensures queued == if ok then old(queued) + [FromApp(WireFrame(op, fin, None, payload))] else old(queued)
    {
      EnqueuedFollows(View(), DataResult(true, op, fin, payload, [0, 0, 0, 0]), false);
      if state != Open {
        return false;
      }
      var r := PrepareDataFrame(true, op, fin, payload, [0, 0, 0, 0]);
      if r.Err? {
        return false;
      }
      queued := queued + [Sent(FromApplication, r.value, false)];
      ok := true;
    }

    method SendMessage(message: Prepared, terminal: bool) returns (ok: bool)
      requires Valid()
      modifies this`queued
      ensures Valid() && Follows(old(View()), View()) && View() == Enqueued(old(View()), Ok(message), terminal)
      ensures ok <==> state == Open
      ensures ok ==> NoCloseFrame()
      ensures queued == if ok then old(queued) + [Sent(FromApplication, message, terminal)] else old(queued)
    {
      EnqueuedFollows(View(), Ok(message), terminal);
      if state != Open {
        return false;
      }
      queued := queued + [Sent(FromApplication, message, terminal)];
      ok := true;
    }

    method Ping(payload: seq<byte>) returns (ok: bool)
      requires Valid()
      modifies this`queued
      ensures Valid() && Follows(old(View()), View())
      ensures View() == Enqueued(old(View()), ControlResult(true, PING, payload, [0, 0, 0, 0]), false)
      ensures ok <==> state == Open && |payload| <= 125
      ensures ok ==> NoCloseFrame()
      ensures queued == if ok then old(queued) + [FromApp(WireFrame(0x9, true, None, payload))] else old(queued)
    {
      EnqueuedFollows(View(), ControlResult(true, PING, payload, [0, 0, 0, 0]), false);
      if state != Open {
        return false;
      }
      var r := PrepareControl(true, PING, payload, [0, 0, 0, 0]);
      if r.Err? {
        return false;
      }
      queued := queued + [Sent(FromApplication, r.value, false)];
      ok := true;
    }

    method Pong(payload: seq<byte>) returns (ok: bool)
      requires Valid()
      modifies this`queued
      ensures Valid() && Follows(old(View()), View())
      ensures View() == Enqueued(old(View()), ControlResult(true, PONG, payload, [0, 0, 0, 0]), false)
      ensures ok <==> state == Open && |payload| <= 125
      ensures ok ==> NoCloseFrame()
      ensures queued == if ok then old(queued) + [FromApp(WireFrame(0xA, true, None, payload))] else old(queued)
    {
      EnqueuedFollows(View(), ControlResult(true, PONG, payload, [0, 0, 0, 0]), false);
      if state != Open {
        return false;
      }
      var r := PrepareControl(true, PONG, payload, [0, 0, 0, 0]);
      if r.Err? {
        return false;
      }
      queued := queued + [Sent(FromApplication, r.value, false)];
      ok := true;
    }

    /** A usable code and reason of the peer can always be answered. */
    method ChooseCloseCode(code: Codes.Code, reason: seq<byte>, ack: bool)
      modifies this`localCode, this`localReason
      ensures (localCode, localReason) == LocalClose(options, old(View()), code, reason, ack)
      ensures ack && code == Codes.BLANK && (remoteCode == Codes.NO_STATUS || !Codes.Invalid(remoteCode))
              && !Codes.Reserved(remoteCode) && |remoteReason| <= PAYLOAD_SIZE_BASIC - 2 ==>
                ClosePayload(localCode, localReason).Ok?
    {
      if options.silentClose {
        localCode, localReason := Codes.NO_STATUS, [];
      } else if code != Codes.BLANK {
        localCode, localReason := code, reason;
      } else if !ack {
        localCode, localReason := Codes.NO_STATUS, [];
      } else if remoteCode == Codes.NO_STATUS {
        localCode, localReason := Codes.NORMAL, [];
      } else {
        localCode, localReason := remoteCode, remoteReason;
      }
    }

    /** Called with the connection open or closing. */
    method SendCloseFrame(code: Codes.Code, reason: seq<byte>, ack: bool, terminal: bool) returns (ok: bool)
      requires Valid() && state in {Open, Closing}
      modifies this
      ensures Valid() && Follows(old(View()), View())
      ensures View() == CloseSent(options, old(View()), code, reason, ack, terminal)
      ensures ok <==> var (c, r) := LocalClose(options, old(View()), code, reason, ack); ClosePayload(c, r).Ok?
      ensures ok ==> state == Closing && |queued| == |old(queued)| + 1
      ensures !ok ==> state == old(state) && queued == old(queued)
    {
      hide ClosePayload, Carrying, Inv, SentInTime, LocalClose;
      CloseSentFollows(options, View(), code, reason, ack, terminal);
      ChooseCloseCode(code, reason, ack);
      var r := PrepareClose(true, localCode, localReason, [0, 0, 0, 0]);
      if r.Err? {
        return false;
      }
      state := Closing;
      if ack {
        wasClean := true;
      }
      queued := queued + [Sent(FromClosing, r.value, terminal)];
      ok := true;
    }

    method Close(code: Codes.Code, reason: seq<byte>) returns (ok: bool)
      requires Valid()
      modifies this
      ensures Valid() && Follows(old(View()), View()) && View() == CloseRequested(options, old(View()), code, reason)
      ensures ok <==> old(state) == Open && state == Closing
      ensures !ok ==> state == old(state) && queued == old(queued)
    {
      hide Inv, Follows, CloseSent, Truncated, Codes.Terminal;
      Stays(View());
      var truncated := Truncated(reason);
      if state != Open {
        return false;
      }
      ok := SendCloseFrame(code, truncated, false, Codes.Terminal(code));
    }

    // ---------- receiving ----------

    /** Called by the read handler of an established connection. */
    method ProcessControlFrame(op: byte, payload: seq<byte>, reply: bool)
      requires Valid() && internal == ProcessConnection
      modifies this
      ensures Valid() && Follows(old(View()), View())
      ensures View() == ControlReceived(options, old(View()), op, payload, reply)
      ensures op != CLOSE ==> state == old(state)
      ensures op == 0x9 && reply && old(state) == Open && |payload| <= 125 ==>
                queued == old(queued) + [FromApp(WireFrame(0xA, true, None, payload))]
      ensures op !in {0x8, 0x9} || (op == 0x9 && (!reply || old(state) != Open || |payload| > 125)) ==>
                queued == old(queued)
      ensures op == CLOSE && old(state) == Open && !options.dropOnProtocolError && !options.silentClose
              && |payload| <= PAYLOAD_SIZE_BASIC ==>
                && state == Closing && wasClean && |Reply(payload)| <= PAYLOAD_SIZE_BASIC
                && queued == old(queued) + [Sent(FromClosing, CloseFrame(Reply(payload)), true)]
      ensures op == CLOSE && old(state) == Closing && WellFormedClose(payload) ==>
                queued == old(queued) && (state == Closed || old(wasClean))
    {
      ghost var before := View();
      ControlIsProcessed(options, before, op, payload, reply);
      hide Inv, Follows, CloseReceived, ControlResult, Enqueued, WellFormedClose, Reply, CloseFrame;
      if state == Closed {
        return;
      }
      if op != CLOSE && state != Open {
        return;
      }
      if op == PING {
        if reply {
          var _ := Pong(payload);
        }
      } else if op == CLOSE {
        ProcessClose(payload);
      }
    }

    method ProcessClose(payload: seq<byte>)
      requires Valid() && state in {Open, Closing}
      modifies this
      ensures Valid() && Follows(old(View()), View()) && View() == CloseReceived(options, old(View()), payload)
    {
      hide CloseSent, Terminated, ClosePayload, LocalClose, InvalidClose, Codes.ExtractCode, Codes.Reason,
        Utf8.WellFormed, Ascii, Inv, SentInTime, Follows;
      ghost var before := View();
      CloseReceivedFollows(options, before, payload);
      RemoteDoesNotMatter(before);
      var extracted := Codes.ExtractCode(payload);
      remoteCode := extracted.code;
      if extracted.error.Some? {
        RefuseClose("Invalid close code");
        return;
      }
      var bad;
      remoteReason, bad := Codes.ExtractReason(payload);
      if bad.Some? {
        RefuseClose("Invalid close reason");
        return;
      }
      AnswerClose();
    }

    /** A usable close frame is answered, or is the answer. */
    method AnswerClose()
      requires Valid() && state in {Open, Closing}
      modifies this
      ensures Valid()
      ensures View() == if old(state) == Open then CloseSent(options, old(View()), Codes.BLANK, [], true, true)
                                   else if old(wasClean) then old(View())
                                   else Terminated(old(View()).(wasClean := true), None)
    {
      hide CloseSent, Terminated, Inv, Follows, SentInTime;
      if state == Open {
        var _ := SendCloseFrame(Codes.BLANK, [], true, true);
      } else if state == Closing && !wasClean {
        CleanDoesNotMatter(View());
        wasClean := true;
        Terminate(None);
      }
    }

    method RefuseClose(text: string)
      requires Valid() && state in {Open, Closing} && forall c :: c in text ==> c < 128 as char
      modifies this
      ensures Valid() && View() == InvalidClose(options, old(View()), text)
    {
      hide CloseSent, Terminated, Ascii, Inv, Follows;
      if options.dropOnProtocolError {
        Terminate(Some(OtherFailure));
      } else {
        var _ := SendCloseFrame(Codes.PROTOCOL_ERROR, Ascii(text), true, true);
      }
    }

    /** The read handler has got an error from the processor. */
    method HandleProtocolError(error: ProcessorError, message: seq<byte>)
      requires Valid()
      modifies this
      ensures Valid() && Follows(old(View()), View()) && View() == ProtocolError(options, old(View()), error, message)
      ensures old(state) == Open && !options.dropOnProtocolError && !options.silentClose ==>
                var r := Codes.CodeOctets(CodeFor(error)) + Truncated(message);
                && state == Closing && |r| <= PAYLOAD_SIZE_BASIC
                && queued == old(queued) + [Sent(FromClosing, CloseFrame(r), true)]
      ensures old(state) != Open || options.dropOnProtocolError ==> state == Closed && queued == old(queued)
    {
      ghost var before := View();
      if state == Open && !options.dropOnProtocolError && !options.silentClose {
        ViolationIsReported(options, before, error, message);
      }
      hide Inv, Follows, Terminated, CloseRequested, CodeFor, CloseFrame;
      if options.dropOnProtocolError {
        Terminate(Some(OtherFailure));
      } else {
        ClosePayloadOfError(options, before, error, message);
        var ok := Close(CodeFor(error), message);
        if !ok {
          Terminate(Some(OtherFailure));
        }
      }
    }

    // ---------- the opening handshake ----------

    method Start()
      requires Valid()
      modifies this
      ensures Valid() && Follows(old(View()), View()) && View() == Apply(options, old(View()), Event.Start)
      ensures internal != UserInit && (old(internal) != UserInit ==> state == Closed)
    {
      StartFollows(options, View(), Event.Start);
      if internal != UserInit {
        Terminate(Some(InvalidState));
        return;
      }
      internal := TransportInit;
    }

    method HandleTransportInit(ec: ErrorCode)
      requires Valid() && NotEnded(ec)
      modifies this
      ensures Valid() && Follows(old(View()), View()) && View() == Apply(options, old(View()), TransportReady(ec))
      ensures state == Closed || internal == ReadHttpRequest
    {
      StartFollows(options, View(), TransportReady(ec));
      var ecm := ec;
      if internal != TransportInit {
        ecm := Some(InvalidState);
      }
      if ecm.Some? {
        Terminate(ecm);
        return;
      }
      internal := ReadHttpRequest;
    }

    method WriteHttpResponse(ec: ErrorCode)
      requires Valid()
      modifies this`status, this`ec
      ensures Valid() && Follows(old(View()), View()) && View() == ResponseStarted(old(View()), ec)
    {
      hide Inv, SentInTime;
      ResponseStartedFollows(View(), ec);
      if ec == Some(HttpConnectionEnded) {
        return;
      }
      if status == 0 {
        status := INTERNAL_SERVER_ERROR;
        this.ec := Some(OtherFailure);
      } else {
        this.ec := ec;
      }
    }

    method SendHttpResponse()
      requires Valid()
      modifies this`http, this`status, this`ec
      ensures Valid() && Follows(old(View()), View()) && View() == ResponseSent(old(View()))
      ensures http != HttpDeferred
    {
      hide Inv, Follows;
      StartFollows(options, View(), SendResponse);
      if http != HttpDeferred {
        return;
      }
      HandshakeFields(View());
      http := HttpBodyWritten;
      WriteHttpResponse(None);
    }

    method HandleReadHandshake(ec: ErrorCode, request: Request)
      requires Valid() && Enabled(View(), ReadRequest(ec, request))
      modifies this
      ensures Valid() && Follows(old(View()), View()) && View() == RequestRead(old(View()), ec, request)
      ensures state == old(state) || state == Closed
      ensures called == old(called) && queued == old(queued)
      ensures old(state) == Connecting ==> (state == Connecting <==> ec.None? && old(internal) == ReadHttpRequest)
      ensures old(state) == Connecting && state == Connecting ==>
                match request
                case Incomplete => View() == old(View())
                case Refused(code, why) =>
                  && internal == ProcessHttpRequest && isHttp == old(isHttp)
                  && (status, this.ec) == if code == 0 then (500, Some(OtherFailure)) else (code, Some(why))
                case Complete(plain, code, result, defers) =>
                  && internal == ProcessHttpRequest && isHttp == (plain || old(isHttp))
                  && http == (if defers then HttpDeferred else old(http))
                  && (status, this.ec) ==
                     if (isHttp && http != HttpInit) || result == Some(HttpConnectionEnded) then (code, old(this.ec))
                     else if code == 0 then (500, Some(OtherFailure))
                     else (code, result)
    {
      ghost var before := View();
      RequestFollows(before, ec, request);
      hide Inv, Follows, Terminated, ResponseStarted;
      var ecm := ec;
      if ecm.None? {
        if state == Connecting {
          if internal != ReadHttpRequest {
            ecm := Some(InvalidState);
          }
        } else if state == Closed {
          return;
        } else {
          ecm := Some(InvalidState);
        }
      }
      if ecm.Some? {
        if ecm == Some(Eof) && state == Closed {
          return;
        }
        Terminate(ecm);
        return;
      }
      match request {
        case Incomplete =>
        case Refused(code, why) =>
          status := code;
          internal := ProcessHttpRequest;
          RequestIsRead(before, View());
          WriteHttpResponse(Some(why));
        case Complete(plain, code, result, defers) =>
          internal := ProcessHttpRequest;
          if plain {
            isHttp := true;
          }
          status := code;
          if defers {
            http := HttpDeferred;
          }
          RequestIsRead(before, View());
          if !isHttp || http == HttpInit {
            WriteHttpResponse(result);
          }
      }
    }

    method HandleWriteHttpResponse(ec: ErrorCode)
      requires Valid() && NotEnded(ec)
      modifies this
      ensures Valid() && Follows(old(View()), View()) && View() == ResponseWritten(old(View()), ec)
      ensures queued == old(queued)
      ensures called != old(called) <==> old(state) == Connecting && state == Open
      ensures called != old(called) ==> called == [OpenHandler]
      ensures old(state) == Connecting ==>
                state == if ec.None? && old(internal) == ProcessHttpRequest && old(status) == 101 then Open else Closed
      ensures old(state) != Connecting ==> state == old(state) || state == Closed
    {
      ghost var before := View();
      ResponseFollows(before, ec);
      hide Follows, Terminated;
      var ecm := ec;
      if ecm.None? {
        if state == Connecting {
          if internal != ProcessHttpRequest {
            ecm := Some(InvalidState);
          }
        } else if state == Closed {
          return;
        } else {
          ecm := Some(InvalidState);
        }
      }
      if ecm.Some? {
        if ecm == Some(Eof) && state == Closed {
          return;
        }
        Terminate(ecm);
        return;
      }
      if status != SWITCHING_PROTOCOLS {
        if isHttp {
          EcIsOverwritten(before);
          Terminate(Some(HttpConnectionEnded));
        } else {
          Terminate(this.ec);
        }
        return;
      }
      internal := ProcessConnection;
      state := Open;
      called := called + [OpenHandler];
    }

    // ---------- reads and writes ----------

    /** The checks at the start of the read handler. */
    method HandleReadFrame(ec: ErrorCode) returns (proceed: bool)
      requires Valid() && NotEnded(ec)
      modifies this
      ensures Valid() && Follows(old(View()), View()) && View() == Apply(options, old(View()), ReadFrame(ec))
      ensures proceed <==> ec.None? && old(internal) == ProcessConnection
      ensures proceed ==> state != Connecting && View() == old(View())
      ensures !proceed ==> state == Closed
    {
      hide Inv, Follows, Terminated, ControlReceived, ProtocolError, CloseRequested, RequestRead, ResponseWritten,
        ShutDown;
      ghost var before := View();
      Stays(before);
      if internal == ProcessConnection { NotConnecting(before); }
      var ecm := ec;
      if ecm.None? && internal != ProcessConnection {
        ecm := Some(InvalidState);
      }
      if ecm.Some? {
        if ecm == Some(Eof) {
          if state == Closed {
            return false;
          }
        } else if ecm == Some(InvalidState) {
          if state == Closed {
            return false;
          }
        }
        Terminate(ecm);
        return false;
      }
      proceed := true;
    }

    method HandleWriteFrame(ec: ErrorCode, terminal: bool)
      requires Valid() && NotEnded(ec)
      modifies this
      ensures Valid() && Follows(old(View()), View())
      ensures View() == Apply(options, old(View()), WroteFrames(ec, terminal))
      ensures ec.Some? || terminal ==> state == Closed && |shutdowns| == 1
    {
      hide Inv, Follows, Terminated, ControlReceived, ProtocolError, CloseRequested, RequestRead, ResponseWritten,
        ShutDown;
      Stays(View());
      if ec.Some? {
        Terminate(ec);
        return;
      }
      if terminal {
        Terminate(None);
      }
    }

    /** Whatever happens, the connection does what the event means and keeps the invariant of its life. */
    method Handle(e: Event)
      requires Valid() && Enabled(View(), e)
      modifies this
      ensures Valid() && Follows(old(View()), View()) && View() == Apply(options, old(View()), e)
    {
      EventFollows(options, View(), e);
      hide Terminated, ControlReceived, CloseRequested, RequestRead, ResponseWritten, ResponseStarted, ResponseSent,
        DataResult, ControlResult, Enqueued, ProtocolError, ShutDown, ReadFailed, Inv, Follows;
      match e {
        case Start => Start();
        case TransportReady(ec) => HandleTransportInit(ec);
        case ReadRequest(ec, request) => HandleReadHandshake(ec, request);
        case SetStatus(code) => if internal == ProcessHttpRequest { status := code; }
        case DeferResponse => http := HttpDeferred;
        case SendResponse => SendHttpResponse();
        case WroteResponse(ec) => HandleWriteHttpResponse(ec);
        case ReadFrame(ec) => var _ := HandleReadFrame(ec);
        case Violation(error, reason) => HandleProtocolError(error, reason);
        case Control(op, payload, reply) => ProcessControlFrame(op, payload, reply);
        case Send(op, fin, payload) => var _ := Send(op, fin, payload);
        case SendPrepared(message, terminal) => var _ := SendMessage(message, terminal);
        case Ping(payload) => var _ := Ping(payload);
        case Pong(payload) => var _ := Pong(payload);
        case RequestClose(code, reason) => var _ := Close(code, reason);
        case WroteFrames(ec, terminal) => HandleWriteFrame(ec, terminal);
        case Timeout => Terminate(Some(OtherFailure));
        case TransportDown => HandleTerminate();
      }
    }
  }

  lemma TerminatedMeans(c: Conn, ec: ErrorCode)
    requires Inv(c) && (NotEnded(ec) || (c.isHttp && c.state == Connecting))
    ensures var d := Terminated(c, ec);
            && Inv(d) && Follows(c, d) && d.state == Closed && |d.shutdowns| == 1 && d.queued == c.queued
            && d.called == c.called
            && (c.state != Closed ==> (d.shutdowns[0] == FailedStatus <==> d.called == []))
  {
    hide SentInTime, QueueInv;
    TerminatedFollows(c, ec);
  }

  lemma DownMeans(o: Options, c: Conn)
    requires Inv(c) && Enabled(c, TransportDown)
    ensures var d := Apply(o, c, TransportDown);
            && Inv(d) && Follows(c, d) && c.completed == 0 && |c.shutdowns| == 1
            && c.called == (if c.shutdowns[0] == FailedStatus then [] else [OpenHandler])
            && d == c.(completed := 1,
                       called := if c.called == [OpenHandler] then [OpenHandler, CloseHandler]
                                 else if c.ec == Some(HttpConnectionEnded) then [] else [FailHandler])
  {
    hide SentInTime, QueueInv, ControlReceived, ProtocolError, CloseRequested, RequestRead, ResponseWritten, Terminated,
      ReadFailed, ResponseSent, Enqueued, DataResult, ControlResult;
    DownFollows(o, c);
  }

  lemma ClosePayloadOfError(o: Options, c: Conn, error: ProcessorError, message: seq<byte>)
    ensures c.state == Open ==> CloseRequested(o, c, CodeFor(error), message).state == Closing
    ensures c.state != Open ==> CloseRequested(o, c, CodeFor(error), message) == c
  {
  }

  /** The request has been read, on a connection that was waiting for it. */
  lemma RequestIsRead(c: Conn, d: Conn)
    requires Inv(c) && c.state == Connecting
    requires d == c.(internal := ProcessHttpRequest, isHttp := d.isHttp, http := d.http, status := d.status)
    requires c.isHttp ==> d.isHttp
    ensures Inv(d)
  {
  }

  /** What a control frame does: pings are answered with pongs, close frames with close frames. */
  lemma ControlIsProcessed(o: Options, c: Conn, op: byte, payload: seq<byte>, reply: bool)
    requires Inv(c) && c.internal == ProcessConnection
    ensures var d := ControlReceived(o, c, op, payload, reply);
            && Follows(c, d) && c.state != Connecting
            && (op != CLOSE ==> d.state == c.state)
            && (op == 0x9 && reply && c.state == Open && |payload| <= 125 ==>
                  d.queued == c.queued + [FromApp(WireFrame(0xA, true, None, payload))])
            && (op !in {0x8, 0x9} || (op == 0x9 && (!reply || c.state != Open || |payload| > 125)) ==>
                  d.queued == c.queued)
            && (op == CLOSE && c.state == Open && !o.dropOnProtocolError && !o.silentClose
                && |payload| <= PAYLOAD_SIZE_BASIC ==>
                  && d.state == Closing && d.wasClean && |Reply(payload)| <= PAYLOAD_SIZE_BASIC
                  && d.queued == c.queued + [Sent(FromClosing, CloseFrame(Reply(payload)), true)])
            && (op == CLOSE && c.state == Closing && WellFormedClose(payload) ==>
                  d.queued == c.queued && (d.state == Closed || c.wasClean))
  {
    hide Inv, Follows, CloseReceived, Reply, CloseFrame, WellFormedClose, Utf8.WellFormed;
    NotConnecting(c);
    ControlFollows(o, c, op, payload, reply);
    if op == CLOSE && c.state == Open && !o.dropOnProtocolError && !o.silentClose && |payload| <= PAYLOAD_SIZE_BASIC {
      CloseIsAnswered(o, c, payload, reply);
    }
    if op == CLOSE && c.state == Closing && WellFormedClose(payload) {
      if c.wasClean {
        WhenCloseIsRepeated(o, c, payload, reply);
      } else {
        AnswerTerminates(o, c, payload, reply);
      }
    }
  }
}
