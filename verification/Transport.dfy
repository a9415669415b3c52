/** From the write queue of one endpoint to the read handler of the other. */
module Transport {
  import opened Bytes
  import opened Stream
  import opened Wire
  import opened WriteQueue
  import L = Lifecycle

  /** A queued message is a frame ready for the wire. */
  predicate Carries(m: Outgoing, f: WireFrame) {
    Sendable(f) && m.header == FrameHeader(f) && m.payload == MaskedPayload(f)
  }

  ghost predicate CarryAll(ms: seq<Outgoing>, frames: seq<WireFrame>) {
    |ms| == |frames| && forall i :: 0 <= i < |ms| ==> Carries(ms[i], frames[i])
  }

  lemma {:induction false} QueuedOctets(ms: seq<Outgoing>, frames: seq<WireFrame>)
    requires CarryAll(ms, frames)
    ensures AllSendable(frames) && Octets(ms) == EncodeAll(frames)
    decreases |ms|
  {
    hide FrameHeader, MaskedPayload;
    if ms != [] {
      assert Carries(ms[0], frames[0]);
      QueuedOctets(ms[1..], frames[1..]);
      assert frames == [frames[0]] + frames[1..];
    }
  }

  /**
   However senders and the I/O strand interleave and however the network cuts what was handed over,
   the peer reads the frames that were pushed first, in the order in which they were pushed.
   */
  lemma PeerReadsInPushOrder(es: seq<Event>, frames: seq<WireFrame>, cfg: Config, chunks: seq<seq<byte>>)
    requires Run(INIT, es) && CarryAll(After(INIT, es).pushed, frames)
    requires Flatten(chunks) == Octets(After(INIT, es).handed)
    ensures var n := |After(INIT, es).handed|;
            n <= |frames| && DrainChunks(cfg, IDLE, chunks) == Assemble(cfg, None, frames[..n])
  {
    hide After, Octets, DrainChunks, Drain, Assemble, EncodeAll, Carries;
    var s := After(INIT, es);
    var n := |s.handed|;
    WriteProtocol(es);
    assert s.handed == s.pushed[..n];
    QueuedOctets(s.handed, frames[..n]);
    DrainOfChunks(cfg, IDLE, chunks);
    DrainOfFrames(cfg, None, frames[..n]);
  }

  // ---------- close frames on the wire ----------

  function Queued(m: L.Sent): Outgoing { Outgoing(m.message.header, m.message.payload, m.terminal) }

  /** What was pushed into the write queue is what the connection queued, as far as it has got. */
  ghost predicate PushedFrom(ms: seq<Outgoing>, q: seq<L.Sent>) {
    |ms| <= |q| && forall i :: 0 <= i < |ms| ==> ms[i] == Queued(q[i])
  }

  /**
   However the connection lives and however its writes interleave: on the wire nothing of the application
   follows a close frame, and nothing at all follows a message that was to be the last.
   */
  lemma NothingAfterCloseOnTheWire(o: L.Options, life: seq<L.Event>, es: seq<Event>)
    requires L.Run(o, L.INIT, life) && Run(INIT, es)
    requires PushedFrom(After(INIT, es).pushed, L.After(o, L.INIT, life).queued)
    ensures var q, h := L.After(o, L.INIT, life).queued, After(INIT, es).handed;
            && PushedFrom(h, q)
            && (forall i, j :: 0 <= i < j < |h| && q[i].origin == L.FromClosing ==> q[j].origin == L.FromClosing)
            && (forall i :: 0 <= i < |h| && q[i].terminal ==> i == |h| - 1)
  {
    hide After, L.After, Run, L.Run;
    var q, s := L.After(o, L.INIT, life).queued, After(INIT, es);
    WriteProtocol(es);
    L.NothingAfterClose(o, life);
    assert s.handed == s.pushed[..|s.handed|];
    forall i | 0 <= i < |s.handed| && q[i].terminal ensures i == |s.handed| - 1 {
      assert s.handed[i] == Queued(q[i]);
    }
  }
}
