/** When a connection opens: the opening handshake told by the events of a run alone. */
module Opening {
  import opened Bytes
  import opened Lifecycle
  import opened Frame
  import opened Sender
  import Close
  import Utf8

  /** An event that leaves a connection in the opening handshake where it is. */
  predicate Neutral(e: Event) {
    || e.SetStatus? || e.DeferResponse? || e.SendResponse? || e.Send? || e.SendPrepared? || e.Ping? || e.Pong?
    || e.RequestClose? || e == WroteFrames(None, false)
  }

  /** A request has been read, completely or up to where it is refused. */
  predicate Answerable(e: Event) { e.ReadRequest? && e.ec.None? && !e.request.Incomplete? }

  /** The status of the response before event k: that of the request answered at r, unless set since. */
  function LastStatus(es: seq<Event>, r: nat, k: nat): nat
    requires r < k <= |es| && Answerable(es[r])
  {
    if k == r + 1 then es[r].request.status
    else if es[k - 1].SetStatus? then es[k - 1].status
    else LastStatus(es, r, k - 1)
  }

  /**
   The events before event k are: the start at a, the transport ready at b, the request read at r,
   which may take several reads, and otherwise neutral ones.
   */
  predicate Handshake(es: seq<Event>, a: nat, b: nat, r: nat, k: nat) {
    && a < b < r < k <= |es| && es[a] == Start && es[b] == TransportReady(None) && Answerable(es[r])
    && forall i :: 0 <= i < k && i != a && i != b && i != r ==>
         Neutral(es[i]) || (b < i < r && es[i] == ReadRequest(None, Incomplete))
  }

  /** Event k writes the response to a handshake, which has status 101. */
  predicate Opens(es: seq<Event>, a: nat, b: nat, r: nat, k: nat) {
    k < |es| && Handshake(es, a, b, r, k) && es[k] == WroteResponse(None) && LastStatus(es, r, k) == 101
  }

  // ---------- one event ----------

  predicate GoesOn(c: Conn, e: Event) {
    || Neutral(e) || (e == Start && c.internal == UserInit)
    || (e == TransportReady(None) && c.internal == TransportInit)
    || (e.ReadRequest? && e.ec.None? && c.internal == ReadHttpRequest)
  }

  /** What an event makes of a connection in the opening handshake. */
  predicate EarlyStep(c: Conn, e: Event, d: Conn) {
    && (d.state == Connecting <==> GoesOn(c, e))
    && (d.state == Open <==> e == WroteResponse(None) && c.internal == ProcessHttpRequest && c.status == 101)
    && (Neutral(e) ==> d.internal == c.internal)
    && (e.SetStatus? && c.internal != ProcessHttpRequest ==> d == c)
    && (Neutral(e) && c.internal == ProcessHttpRequest ==>
          (d.status == 101 <==> if e.SetStatus? then e.status == 101 else c.status == 101))
    && (GoesOn(c, e) && e == Start ==> d.internal == TransportInit)
    && (GoesOn(c, e) && e.TransportReady? ==> d.internal == ReadHttpRequest)
    && (GoesOn(c, e) && e.ReadRequest? && e.request.Incomplete? ==> d.internal == ReadHttpRequest)
    && (GoesOn(c, e) && Answerable(e) ==>
          d.internal == ProcessHttpRequest && (d.status == 101 <==> e.request.status == 101))
  }

  lemma NeutralStep(o: Options, c: Conn, e: Event)
    requires c.state == Connecting && Enabled(c, e) && Neutral(e)
    ensures EarlyStep(c, e, Apply(o, c, e))
  {
    hide DataResult, ControlResult, CloseSent, Terminated, ControlReceived, ProtocolError, RequestRead, ResponseWritten,
      ShutDown;
  }

  lemma HandshakeStep(o: Options, c: Conn, e: Event)
    requires c.state == Connecting && Enabled(c, e)
    requires e.Start? || e.TransportReady? || e.ReadRequest? || e.WroteResponse?
    ensures EarlyStep(c, e, Apply(o, c, e))
  {
    hide DataResult, ControlResult, ControlReceived, ProtocolError, CloseRequested, ShutDown, Enqueued, Terminated;
    if !e.Start? { TerminatedCalls(c, e.ec); }
    TerminatedCalls(c, c.ec);
    TerminatedCalls(c, Some(InvalidState));
    TerminatedCalls(c.(ec := Some(HttpConnectionEnded)), Some(HttpConnectionEnded));
  }

  /** Which events a connection in the opening handshake survives, and what they do. */
  lemma ConnectingStep(o: Options, c: Conn, e: Event)
    requires Inv(c) && c.state == Connecting && Enabled(c, e)
    ensures EarlyStep(c, e, Apply(o, c, e))
  {
    if Neutral(e) {
      NeutralStep(o, c, e);
    } else if e.Start? || e.TransportReady? || e.ReadRequest? || e.WroteResponse? {
      HandshakeStep(o, c, e);
    } else {
      hide ControlReceived, ProtocolError, CloseRequested, RequestRead, ResponseWritten, ShutDown, Enqueued, QueueInv,
        HandlersInv, DataResult, ControlResult;
      assert c.shutdowns == [];
    }
  }

  lemma TerminatedCalls(c: Conn, ec: ErrorCode)
    ensures Terminated(c, ec).called == c.called && Terminated(c, ec).state == Closed
  {
  }

  lemma CloseSentCalls(o: Options, c: Conn, code: Close.Code, reason: seq<byte>, ack: bool, terminal: bool)
    ensures var d := CloseSent(o, c, code, reason, ack, terminal); d.called == c.called && d.state in {c.state, Closing}
  {
    hide ClosePayload, Carrying, LocalClose;
  }

  lemma ControlCalls(o: Options, c: Conn, op: byte, payload: seq<byte>, reply: bool)
    ensures ControlReceived(o, c, op, payload, reply).called == c.called
  {
    hide ControlResult, Close.ExtractCode, Close.Reason, Utf8.WellFormed, Ascii, CloseSent, Terminated;
    var c1 := c.(remoteCode := Close.ExtractCode(payload).code);
    var c2 := c1.(remoteReason := Close.Reason(payload));
    TextIsAscii();
    TerminatedCalls(c1, Some(OtherFailure));
    TerminatedCalls(c2, Some(OtherFailure));
    TerminatedCalls(c2.(wasClean := true), None);
    CloseSentCalls(o, c1, Close.PROTOCOL_ERROR, Ascii("Invalid close code"), true, true);
    CloseSentCalls(o, c2, Close.PROTOCOL_ERROR, Ascii("Invalid close reason"), true, true);
    CloseSentCalls(o, c2, Close.BLANK, [], true, true);
  }

  lemma TextIsAscii()
    ensures forall x :: x in "Invalid close code" || x in "Invalid close reason" ==> x < 128 as char
  {
  }

  lemma RequestCalls(c: Conn, ec: ErrorCode, request: Request)
    ensures var d := RequestRead(c, ec, request); d.called == c.called && d.state in {c.state, Closed}
  {
    hide Terminated;
    TerminatedCalls(c, ec);
    TerminatedCalls(c, Some(InvalidState));
  }

  lemma ResponseCalls(c: Conn, ec: ErrorCode)
    ensures var d := ResponseWritten(c, ec);
            || (d.called == c.called && d.state in {c.state, Closed})
            || (d.called == c.called + [OpenHandler] && c.state == Connecting && d.state == Open)
  {
    hide Terminated;
    TerminatedCalls(c, ec);
    TerminatedCalls(c, c.ec);
    TerminatedCalls(c, Some(InvalidState));
    TerminatedCalls(c.(ec := Some(HttpConnectionEnded)), Some(HttpConnectionEnded));
  }

  /** The open handler is called exactly when the state becomes open. */
  lemma CalledStep(o: Options, c: Conn, e: Event)
    requires Inv(c) && Enabled(c, e)
    ensures var d := Apply(o, c, e);
            OpenHandler in d.called <==> OpenHandler in c.called || (c.state == Connecting && d.state == Open)
  {
    hide DataResult, ControlResult, CodeFor, Truncated, QueueInv, CloseSent, Terminated, ControlReceived, RequestRead,
      ResponseWritten, Close.Terminal, Carrying, HandlersInv;
    TerminatedCalls(c, None);
    TerminatedCalls(c, Some(InvalidState));
    TerminatedCalls(c, Some(OtherFailure));
    match e
    case TransportReady(ec) => TerminatedCalls(c, ec);
    case ReadRequest(ec, request) => RequestCalls(c, ec, request);
    case WroteResponse(ec) => ResponseCalls(c, ec);
    case ReadFrame(ec) => TerminatedCalls(c, ec);
    case WroteFrames(ec, _) => TerminatedCalls(c, ec);
    case Violation(error, reason) =>
      CloseSentCalls(o, c, CodeFor(error), Truncated(reason), false, Close.Terminal(CodeFor(error)));
    case RequestClose(code, reason) =>
      CloseSentCalls(o, c, code, Truncated(reason), false, Close.Terminal(code));
    case Control(op, payload, reply) =>
      ControlCalls(o, c, op, payload, reply);
      NotConnecting(c);
    case _ =>
  }

  // ---------- runs ----------

  /** A connection in the opening handshake has seen the events that brought it there and nothing else. */
  lemma {:induction false} Places(o: Options, es: seq<Event>, n: nat) returns (a: nat, b: nat, r: nat)
    requires Run(o, INIT, es) && n <= |es| && At(o, es, n).state == Connecting
    ensures match At(o, es, n).internal
            case UserInit => forall i :: 0 <= i < n ==> Neutral(es[i])
            case TransportInit =>
              a < n && es[a] == Start && forall i :: 0 <= i < n && i != a ==> Neutral(es[i])
            case ReadHttpRequest =>
              && a < b < n && es[a] == Start && es[b] == TransportReady(None)
              && forall i :: 0 <= i < n && i != a && i != b ==>
                   Neutral(es[i]) || (b < i && es[i] == ReadRequest(None, Incomplete))
            case ProcessHttpRequest =>
              Handshake(es, a, b, r, n) && (At(o, es, n).status == 101 <==> LastStatus(es, r, n) == 101)
            case ProcessConnection => false
    decreases n
  {
    hide Apply, Enabled, At, Run, Neutral, Follows;
    if n == 0 {
      a, b, r := 0, 0, 0;
      FirstAt(o, es);
    } else {
      NextAt(o, es, n - 1);
      var c, e := At(o, es, n - 1), es[n - 1];
      EventFollows(o, c, e);
      OnlyForward(c, At(o, es, n));
      ConnectingStep(o, c, e);
      a, b, r := Places(o, es, n - 1);
      if e == Start && c.internal == UserInit { a := n - 1; }
      if e.TransportReady? { b := n - 1; }
      if Answerable(e) { r := n - 1; }
      NotNeutral(e);
    }
  }

  lemma FirstAt(o: Options, es: seq<Event>)
    requires Run(o, INIT, es)
    ensures At(o, es, 0) == INIT
  {
    assert es[..0] == [];
  }

  lemma OnlyForward(c: Conn, d: Conn)
    requires Follows(c, d) && d.state == Connecting
    ensures c.state == Connecting
  {
  }

  lemma NotNeutral(e: Event)
    ensures Neutral(e) ==> !e.Start? && !e.TransportReady? && !e.ReadRequest? && !e.WroteResponse?
  {
  }

  /** Where a handshake is after its first n events. */
  function Stage(a: nat, b: nat, r: nat, n: nat): InternalState {
    if n <= a then UserInit else if n <= b then TransportInit else if n <= r then ReadHttpRequest
    else ProcessHttpRequest
  }

  /** The events of a handshake bring the connection from stage to stage. */
  lemma {:induction false} Leads(o: Options, es: seq<Event>, a: nat, b: nat, r: nat, k: nat, n: nat)
    requires Run(o, INIT, es) && Handshake(es, a, b, r, k) && n <= k
    ensures At(o, es, n).state == Connecting && At(o, es, n).internal == Stage(a, b, r, n)
    ensures n > r ==> (At(o, es, n).status == 101 <==> LastStatus(es, r, n) == 101)
    decreases n
  {
    hide Apply, Enabled, At, Run, Neutral;
    if n == 0 {
      FirstAt(o, es);
    } else {
      Leads(o, es, a, b, r, k, n - 1);
      NextAt(o, es, n - 1);
      ConnectingStep(o, At(o, es, n - 1), es[n - 1]);
      NotNeutral(es[n - 1]);
    }
  }

  /** The open handler has been called before event n exactly if an event before it completed a handshake. */
  lemma {:induction false} OpenedBefore(o: Options, es: seq<Event>, n: nat)
    requires Run(o, INIT, es) && n <= |es|
    ensures OpenHandler in At(o, es, n).called <==>
            exists a: nat, b: nat, r: nat, k: nat :: k < n && Opens(es, a, b, r, k)
    decreases n
  {
    hide Apply, Enabled, At, Run, Inv, Opens;
    if n == 0 {
      FirstAt(o, es);
    } else {
      OpenedBefore(o, es, n - 1);
      NextAt(o, es, n - 1);
      var c, e := At(o, es, n - 1), es[n - 1];
      CalledStep(o, c, e);
      if c.state == Connecting && At(o, es, n).state == Open {
        ConnectingStep(o, c, e);
        var a, b, r := Places(o, es, n - 1);
        assert Opens(es, a, b, r, n - 1) by { Completes(es, a, b, r, n - 1); }
      }
      var last := n - 1;
      if a: nat, b: nat, r: nat :| Opens(es, a, b, r, last) {
        OpensMeans(es, a, b, r, last);
        Leads(o, es, a, b, r, last, last);
        ConnectingStep(o, c, e);
      }
    }
  }

  lemma Completes(es: seq<Event>, a: nat, b: nat, r: nat, k: nat)
    requires k < |es| && Handshake(es, a, b, r, k) && es[k] == WroteResponse(None) && LastStatus(es, r, k) == 101
    ensures Opens(es, a, b, r, k)
  {
  }

  lemma OpensMeans(es: seq<Event>, a: nat, b: nat, r: nat, k: nat)
    requires Opens(es, a, b, r, k)
    ensures k < |es| && Handshake(es, a, b, r, k) && es[k] == WroteResponse(None) && LastStatus(es, r, k) == 101
  {
  }

  /**
   The open handler is called exactly if the run has a handshake undisturbed from its start to a
   response with status 101 that is written without error.
   */
  lemma OpensExactly(o: Options, es: seq<Event>)
    requires Run(o, INIT, es)
    ensures OpenHandler in After(o, INIT, es).called <==>
            exists a: nat, b: nat, r: nat, k: nat :: Opens(es, a, b, r, k)
  {
    hide Run, After, Apply, Enabled, Handshake;
    assert es[..|es|] == es;
    OpenedBefore(o, es, |es|);
    assert At(o, es, |es|) == After(o, INIT, es);
  }

  lemma {:induction false} NobodySet(es: seq<Event>, r: nat, k: nat)
    requires r < k <= |es| && Answerable(es[r])
    requires SetStatus(101) !in es && forall e :: e in es && Answerable(e) ==> e.request.status != 101
    ensures LastStatus(es, r, k) != 101
    decreases k
  {
    if k == r + 1 {
      assert es[r] in es;
    } else if es[k - 1].SetStatus? {
      assert es[k - 1] in es && es[k - 1] == SetStatus(es[k - 1].status);
    } else {
      NobodySet(es, r, k - 1);
    }
  }

  lemma NotOpened(es: seq<Event>, a: nat, b: nat, r: nat, k: nat)
    requires SetStatus(101) !in es && forall e :: e in es && Answerable(e) ==> e.request.status != 101
    ensures !Opens(es, a, b, r, k)
  {
    if k < |es| && Handshake(es, a, b, r, k) { NobodySet(es, r, k); }
  }

  /** A connection whose request is answered with anything but 101, and is not given that status later, never opens. */
  lemma RefusedNeverOpens(o: Options, es: seq<Event>)
    requires Run(o, INIT, es) && SetStatus(101) !in es
    requires forall e :: e in es && Answerable(e) ==> e.request.status != 101
    ensures OpenHandler !in After(o, INIT, es).called
  {
    hide Run, After, Opens;
    OpensExactly(o, es);
    forall a: nat, b: nat, r: nat, k: nat ensures !Opens(es, a, b, r, k) {
      NotOpened(es, a, b, r, k);
    }
  }
}
