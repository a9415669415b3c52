/** Which of the application's handlers are called in a run of a server connection. */
module Handlers {
  import opened Bytes
  import opened Lifecycle
  import opened Frame
  import opened Sender
  import Close
  import Utf8

  /** The response to a plain HTTP request has been written, on a connection that waits for nothing else. */
  predicate ResponseEnds(c: Conn, e: Event) {
    && e == WroteResponse(None) && c.state == Connecting && c.internal == ProcessHttpRequest
    && c.isHttp && c.status != SWITCHING_PROTOCOLS
  }

  /** On a closed connection: the event brings an error of its own, or sends a deferred response. */
  predicate Overwrites(c: Conn, e: Event) {
    match e
    case Start => c.internal != UserInit
    case TransportReady(ec) => c.internal != TransportInit || ec.Some?
    case ReadRequest(ec, _) => ec.Some? && ec != Some(Eof)
    case WroteResponse(ec) => ec.Some? && ec != Some(Eof)
    case ReadFrame(ec) => ec.Some? && ec != Some(Eof) && ec != Some(InvalidState)
    case WroteFrames(ec, _) => ec.Some?
    case SendResponse => c.http == HttpDeferred
    case Violation(_, _) => true
    case Timeout => true
    case _ => false
  }

  const ENDED: ErrorCode := Some(HttpConnectionEnded)

  lemma TerminatedEnded(c: Conn, ec: ErrorCode)
    ensures var d := Terminated(c, ec); d.ec == (if ec.Some? then ec else c.ec) && d.completed == c.completed
  {
  }

  lemma CloseSentEnded(o: Options, c: Conn, code: Close.Code, reason: seq<byte>, ack: bool, terminal: bool)
    ensures var d := CloseSent(o, c, code, reason, ack, terminal); d.ec == c.ec && d.completed == c.completed
  {
    hide Carrying, ClosePayload, LocalClose;
  }

  lemma RequestEnded(c: Conn, ec: ErrorCode, request: Request)
    requires Inv(c) && Enabled(c, ReadRequest(ec, request))
    ensures var d := RequestRead(c, ec, request);
            && d.completed == c.completed
            && (d.ec == ENDED <==> c.ec == ENDED && !Overwrites(c, ReadRequest(ec, request)))
  {
    hide Terminated, QueueInv;
    TerminatedEnded(c, Some(InvalidState));
    TerminatedEnded(c, ec);
  }

  lemma ResponseEnded(c: Conn, ec: ErrorCode)
    requires Inv(c) && NotEnded(ec)
    ensures var d := ResponseWritten(c, ec);
            && d.completed == c.completed
            && (d.ec == ENDED <==>
                  (c.ec == ENDED && !Overwrites(c, WroteResponse(ec))) || ResponseEnds(c, WroteResponse(ec)))
  {
    hide Terminated, QueueInv;
    TerminatedEnded(c, Some(InvalidState));
    TerminatedEnded(c, ec);
    TerminatedEnded(c, c.ec);
    TerminatedEnded(c.(ec := ENDED), ENDED);
  }

  lemma ReadEnded(c: Conn, ec: Failure)
    requires Inv(c) && ec != HttpConnectionEnded
    ensures var d := ReadFailed(c, ec);
            && d.completed == c.completed
            && (d.ec == ENDED <==> c.ec == ENDED && (ec == Eof || ec == InvalidState))
  {
    hide Terminated, QueueInv;
    TerminatedEnded(c, Some(ec));
  }

  lemma ResponseSentEnded(c: Conn)
    requires Inv(c)
    ensures var d := ResponseSent(c);
            d.completed == c.completed && (d.ec == ENDED <==> c.ec == ENDED && c.http != HttpDeferred)
  {
  }

  lemma ControlEnded(o: Options, c: Conn, op: byte, payload: seq<byte>, reply: bool)
    requires Inv(c) && c.internal == ProcessConnection
    ensures var d := ControlReceived(o, c, op, payload, reply);
            (d.ec == ENDED <==> c.ec == ENDED) && d.completed == c.completed
  {
    hide Terminated, CloseSent, Carrying, Close.ExtractCode, Utf8.WellFormed, Ascii, ControlResult, QueueInv;
    if op == CLOSE && c.state in {Open, Closing} {
      var c1 := c.(remoteCode := Close.ExtractCode(payload).code);
      var c2 := c1.(remoteReason := Close.Reason(payload));
      TerminatedEnded(c1, Some(OtherFailure));
      TerminatedEnded(c2, Some(OtherFailure));
      TerminatedEnded(c2.(wasClean := true), None);
      CloseSentEnded(o, c1, Close.PROTOCOL_ERROR, Ascii("Invalid close code"), true, true);
      CloseSentEnded(o, c2, Close.PROTOCOL_ERROR, Ascii("Invalid close reason"), true, true);
      CloseSentEnded(o, c2, Close.BLANK, [], true, true);
    }
  }

  lemma ViolationEnded(o: Options, c: Conn, error: ProcessorError, reason: seq<byte>)
    requires Inv(c)
    ensures var d := ProtocolError(o, c, error, reason); d.ec != ENDED && d.completed == c.completed
  {
    hide Terminated, CloseSent, CodeFor, Truncated, QueueInv, Close.Terminal;
    var code := CodeFor(error);
    TerminatedEnded(c, Some(OtherFailure));
    CloseSentEnded(o, c, code, Truncated(reason), false, Close.Terminal(code));
  }

  /**
   Exactly when the connection's own error code says that an HTTP connection has ended; and only
   the transport going down completes a shutdown.
   */
  lemma EndedNext(o: Options, c: Conn, e: Event)
    requires Inv(c) && Enabled(c, e)
    ensures Apply(o, c, e).ec == ENDED <==> (c.ec == ENDED && !Overwrites(c, e)) || ResponseEnds(c, e)
    ensures Apply(o, c, e).completed == if e.TransportDown? then c.completed + 1 else c.completed
  {
    hide Terminated, RequestRead, ResponseWritten, ReadFailed, ResponseSent, CloseSent, Carrying, ClosePayload,
      ControlReceived, ProtocolError, DataResult, ControlResult, QueueInv, Truncated, CodeFor, Close.Terminal;
    TerminatedEnded(c, None);
    TerminatedEnded(c, Some(OtherFailure));
    TerminatedEnded(c, Some(InvalidState));
    match e
    case Control(op, payload, reply) => ControlEnded(o, c, op, payload, reply);
    case Violation(error, reason) => ViolationEnded(o, c, error, reason);
    case RequestClose(code, reason) => CloseSentEnded(o, c, code, Truncated(reason), false, Close.Terminal(code));
    case ReadRequest(ec, request) => RequestEnded(c, ec, request);
    case WroteResponse(ec) => ResponseEnded(c, ec);
    case ReadFrame(ec) =>
      ReadEnded(c, if ec.Some? then ec.value else InvalidState);
      if ec.None? && c.internal != ProcessConnection { assert ReadFailed(c, InvalidState) == Apply(o, c, e); }
    case TransportReady(ec) => TerminatedEnded(c, ec);
    case WroteFrames(ec, _) => TerminatedEnded(c, ec);
    case SendResponse => ResponseSentEnded(c);
    case _ =>
  }

  /** Before event j the response of a plain HTTP connection had been written, and nothing overwrote that since. */
  ghost predicate EndsQuietly(o: Options, es: seq<Event>, j: nat)
    requires Run(o, INIT, es) && j <= |es|
  {
    exists i :: 0 <= i < j && ResponseEnds(At(o, es, i), es[i])
                && forall k :: i < k < j ==> !Overwrites(At(o, es, k), es[k])
  }

  lemma {:induction false} EndedAt(o: Options, es: seq<Event>, j: nat)
    requires Run(o, INIT, es) && j <= |es|
    ensures At(o, es, j).ec == ENDED <==> EndsQuietly(o, es, j)
    decreases j
  {
    hide Run, Apply, Enabled, Inv, ResponseEnds, Overwrites;
    if j == 0 {
      assert At(o, es, 0).ec == None by { NothingYet(o, es); }
    } else {
      hide At;
      EndedAt(o, es, j - 1);
      NextAt(o, es, j - 1);
      var c, e := At(o, es, j - 1), es[j - 1];
      EndedNext(o, c, e);
      if ResponseEnds(c, e) {
        assert EndsQuietly(o, es, j);
      } else if EndsQuietly(o, es, j - 1) && !Overwrites(c, e) {
        assert EndsQuietly(o, es, j);
      }
    }
  }

  lemma NothingYet(o: Options, es: seq<Event>)
    requires Run(o, INIT, es)
    ensures At(o, es, 0) == INIT
  {
    assert es[..0] == [];
  }

  /** After the shutdown no handler is called any more. */
  lemma NoMoreCalls(o: Options, c: Conn, e: Event)
    requires Inv(c) && Enabled(c, e) && c.completed == 1
    ensures !e.TransportDown? && Apply(o, c, e).called == c.called && Apply(o, c, e).completed == 1
  {
    hide CloseSent, Carrying, Close.ExtractCode, Utf8.WellFormed, Ascii, ControlResult, DataResult, QueueInv,
      ClosePayload, Truncated, CodeFor;
  }

  /** The transport goes down once; the handlers called then are all there will be. */
  lemma CallsAtDown(o: Options, c: Conn)
    requires Inv(c) && Enabled(c, TransportDown)
    ensures c.completed == 0 && Apply(o, c, TransportDown).completed == 1
    ensures Apply(o, c, TransportDown).called == [] <==> c.ec == ENDED
  {
    hide QueueInv, ControlReceived, ProtocolError, CloseRequested;
  }

  lemma {:induction false} DownAt(o: Options, es: seq<Event>, n: nat) returns (j: nat)
    requires Run(o, INIT, es) && n <= |es| && At(o, es, n).completed == 1
    ensures j < n && es[j] == TransportDown && At(o, es, n).called == At(o, es, j + 1).called
    ensures forall k :: 0 <= k < n && es[k] == TransportDown ==> k == j
    decreases n
  {
    hide Run, Apply, Enabled, Inv, At;
    NothingYet(o, es);
    NextAt(o, es, n - 1);
    var c, e := At(o, es, n - 1), es[n - 1];
    if e == TransportDown {
      CallsAtDown(o, c);
      j := n - 1;
      NotDownBefore(o, es, n - 1);
    } else {
      EndedNext(o, c, e);
      j := DownAt(o, es, n - 1);
      NoMoreCalls(o, c, e);
    }
  }

  lemma {:induction false} NotDownBefore(o: Options, es: seq<Event>, n: nat)
    requires Run(o, INIT, es) && n <= |es| && At(o, es, n).completed == 0
    ensures forall k :: 0 <= k < n ==> es[k] != TransportDown
    decreases n
  {
    hide Run, Apply, Enabled, Inv, At;
    if n > 0 {
      NextAt(o, es, n - 1);
      if es[n - 1] == TransportDown {
        CallsAtDown(o, At(o, es, n - 1));
      } else {
        EndedNext(o, At(o, es, n - 1), es[n - 1]);
        NotDownBefore(o, es, n - 1);
      }
    }
  }

  /**
   The contract of the handlers: a shutdown is issued at most once; when it is over, either the
   open handler and then the close handler were called once each, or only the fail handler, once,
   or none. None is called exactly if the response to a plain HTTP request was written while the
   connection waited for that, and nothing brought an error or sent a deferred response before the
   transport went down. Before that, at most the open handler is called.
   */
  lemma HandlerContract(o: Options, es: seq<Event>)
    requires Run(o, INIT, es)
    ensures var c := After(o, INIT, es);
            && |c.shutdowns| <= 1
            && (c.completed == 1 ==>
                  && c.called in {[OpenHandler, CloseHandler], [FailHandler], []}
                  && (c.called == [] <==>
                        exists j :: 0 <= j < |es| && es[j] == TransportDown && EndsQuietly(o, es, j)))
            && (c.completed == 0 ==> c.called == [] || c.called == [OpenHandler])
            && (c.state in {Open, Closing} ==> c.called == [OpenHandler])
  {
    var c := After(o, INIT, es);
    InitialInv();
    RunFollows(o, INIT, es);
    assert es[..|es|] == es;
    assert c == At(o, es, |es|);
    hide After, Apply, Run, Enabled, EndsQuietly, At, QueueInv;
    if c.completed == 1 {
      var j := DownAt(o, es, |es|);
      NextAt(o, es, j);
      CallsAtDown(o, At(o, es, j));
      EndedAt(o, es, j);
    }
  }

  /** A plain HTTP connection whose response has been written gets the fail handler if a timer expires after that. */
  lemma HttpConnectionMayFail(o: Options)
    ensures var es := [Start, TransportReady(None), ReadRequest(None, Complete(true, 200, None, false)),
                       WroteResponse(None), Timeout, TransportDown];
            && Run(o, INIT, es) && After(o, INIT, es).isHttp && After(o, INIT, es).called == [FailHandler]
  {
    hide ControlReceived, ProtocolError, CloseRequested, DataResult, ControlResult, Run, After, RequestRead, Terminated;
    var a := [Start, TransportReady(None), ReadRequest(None, Complete(true, 200, None, false))];
    var b := [WroteResponse(None), Timeout, TransportDown];
    Handshaken(o, true, 200);
    var c := INIT.(internal := ProcessHttpRequest, isHttp := true, status := 200);
    var c1 := c.(ec := ENDED, http := HttpClosed, state := Closed, shutdowns := [FailedStatus]);
    assert Terminated(c.(ec := ENDED), ENDED) == c1
           && Terminated(c1, Some(OtherFailure)) == c1.(ec := Some(OtherFailure))
      by { TerminatedTwice(c); }
    assert Apply(o, c, b[0]) == c1;
    ThreeEvents(o, c, b[0], b[1], b[2]);
    RunConcat(o, INIT, a, b);
    assert a + b == [a[0], a[1], a[2], b[0], b[1], b[2]];
  }

  /**
   A response that is deferred while the request is processed is sent by the first call after that, as
   an error of the server if no status has been set, and not again by a second call.
   */
  lemma DeferredIsSentOnce(o: Options, c: Conn)
    ensures var d := Apply(o, Apply(o, c, DeferResponse), SendResponse);
            && d.state == c.state && d.http == HttpBodyWritten
            && (d.status, d.ec) == (if c.status == 0 then (500, Some(OtherFailure)) else (c.status, None))
            && Apply(o, d, SendResponse) == d
  {
    hide ControlReceived, ProtocolError, CloseRequested, RequestRead, ResponseWritten, ShutDown, DataResult,
      ControlResult, Terminated;
  }

  lemma TerminatedTwice(c: Conn)
    requires c.state == Connecting && c.isHttp && c.shutdowns == []
    ensures var d := Terminated(c.(ec := ENDED), ENDED);
            && d == c.(ec := ENDED, http := HttpClosed, state := Closed, shutdowns := [FailedStatus])
            && Terminated(d, Some(OtherFailure)) == d.(ec := Some(OtherFailure))
  {
  }
}
