/** Logical messages sent by one endpoint, cut up anyhow by the network, and read by the other. */
module RoundTrip {
  import opened Bytes
  import opened Frame
  import opened Stream
  import opened Wire
  import opened Sender
  import Delivery
  import Receiver
  import Utf8

  datatype ControlMsg = ControlMsg(op: byte, payload: seq<byte>, key: seq<byte>)

  /** A piece of a data message, and the control messages sent between the previous piece and it. */
  datatype Fragment = Fragment(before: seq<ControlMsg>, payload: seq<byte>, key: seq<byte>)

  datatype Logical = Data(op: byte, fragments: seq<Fragment>) | Control(control: ControlMsg)

  // ---------- what is to be delivered ----------

  function Text(frags: seq<Fragment>): seq<byte> {
    if frags == [] then [] else frags[0].payload + Text(frags[1..])
  }

  function ControlMessages(cs: seq<ControlMsg>): seq<Message> {
    if cs == [] then [] else [Message(cs[0].op, cs[0].payload)] + ControlMessages(cs[1..])
  }

  /** A data message is delivered whole, after the control messages that came between its fragments. */
  function FragmentMessages(op: byte, soFar: seq<byte>, frags: seq<Fragment>): seq<Message>
    decreases |frags|
  {
    if frags == [] then [Message(op, soFar)]
    else ControlMessages(frags[0].before) + FragmentMessages(op, soFar + frags[0].payload, frags[1..])
  }

  function Expected(l: Logical): seq<Message> {
    match l
    case Data(op, frags) => FragmentMessages(op, [], frags)
    case Control(c) => ControlMessages([c])
  }

  function AllExpected(ls: seq<Logical>): seq<Message> {
    if ls == [] then [] else Expected(ls[0]) + AllExpected(ls[1..])
  }

  function BetweenFragments(frags: seq<Fragment>): seq<ControlMsg> {
    if frags == [] then [] else frags[0].before + BetweenFragments(frags[1..])
  }

  lemma {:induction false} ControlMessagesConcat(a: seq<ControlMsg>, b: seq<ControlMsg>)
    ensures ControlMessages(a + b) == ControlMessages(a) + ControlMessages(b)
  {
    if a == [] {
      assert a + b == b;
    } else {
      ControlMessagesConcat(a[1..], b);
      assert (a + b)[0] == a[0] && (a + b)[1..] == a[1..] + b;
      Associative([Message(a[0].op, a[0].payload)], ControlMessages(a[1..]), ControlMessages(b));
    }
  }

  /** The opcode is that of the message, the payload the concatenation of the fragments. */
  lemma {:induction false} DataIsDeliveredWhole(op: byte, soFar: seq<byte>, frags: seq<Fragment>)
    ensures FragmentMessages(op, soFar, frags) ==
            ControlMessages(BetweenFragments(frags)) + [Message(op, soFar + Text(frags))]
    decreases |frags|
  {
    if frags == [] {
      assert soFar + Text(frags) == soFar;
    } else {
      hide ControlMessages;
      var tail := BetweenFragments(frags[1..]);
      DataIsDeliveredWhole(op, soFar + frags[0].payload, frags[1..]);
      ControlMessagesConcat(frags[0].before, tail);
      Associative(soFar, frags[0].payload, Text(frags[1..]));
      Associative(ControlMessages(frags[0].before), ControlMessages(tail), [Message(op, soFar + Text(frags))]);
    }
  }

  // ---------- what is sent ----------

  function ControlFrame(server: bool, c: ControlMsg): WireFrame {
    WireFrame(c.op, true, Role(server, c.key), c.payload)
  }

  function ControlFrames(server: bool, cs: seq<ControlMsg>): seq<WireFrame>
    decreases cs
  {
    if cs == [] then [] else [ControlFrame(server, cs[0])] + ControlFrames(server, cs[1..])
  }

  function DataFrame(server: bool, op: byte, f: Fragment, last: bool): WireFrame {
    WireFrame(op, last, Role(server, f.key), f.payload)
  }

  /** The first frame carries the opcode, the others are continuations, the last has FIN set. */
  function FragmentFrames(server: bool, op: byte, frags: seq<Fragment>): seq<WireFrame>
    decreases |frags|
  {
    if frags == [] then []
    else ControlFrames(server, frags[0].before) + [DataFrame(server, op, frags[0], |frags| == 1)]
         + FragmentFrames(server, CONTINUATION, frags[1..])
  }

  function FramesOf(server: bool, l: Logical): seq<WireFrame> {
    match l
    case Data(op, frags) => FragmentFrames(server, op, frags)
    case Control(c) => ControlFrames(server, [c])
  }

  function AllFrames(server: bool, ls: seq<Logical>): seq<WireFrame>
    decreases ls
  {
    if ls == [] then [] else FramesOf(server, ls[0]) + AllFrames(server, ls[1..])
  }

  // ---------- what may be sent ----------

  predicate ControlOk(c: ControlMsg) {
    c.op in {CLOSE, PING, PONG} && |c.payload| <= PAYLOAD_SIZE_BASIC && |c.key| == 4
  }

  ghost predicate FragmentOk(f: Fragment) {
    |f.key| == 4 && forall c :: c in f.before ==> ControlOk(c)
  }

  /** Within the receiver's limit, and well-formed if it is text. */
  ghost predicate Deliverable(max: nat, l: Logical) {
    match l
    case Control(c) => ControlOk(c)
    case Data(op, frags) =>
      && op in {TEXT, BINARY} && frags != [] && (forall f :: f in frags ==> FragmentOk(f))
      && |Text(frags)| <= max && (op == TEXT ==> Utf8.WellFormed(Text(frags)))
  }

  ghost predicate AllDeliverable(max: nat, ls: seq<Logical>) { forall l :: l in ls ==> Deliverable(max, l) }

  lemma {:induction false} FragmentsAreSendable(server: bool, op: byte, frags: seq<Fragment>)
    requires op <= 0xF && |Text(frags)| < TWO_64 && forall f :: f in frags ==> FragmentOk(f)
    ensures AllSendable(FragmentFrames(server, op, frags))
    decreases |frags|
  {
    if frags != [] {
      assert FragmentOk(frags[0]);
      ControlsAreSendable(server, frags[0].before);
      FragmentsAreSendable(server, CONTINUATION, frags[1..]);
    }
  }

  lemma {:induction false} ControlsAreSendable(server: bool, cs: seq<ControlMsg>)
    requires forall c :: c in cs ==> ControlOk(c)
    ensures AllSendable(ControlFrames(server, cs))
    decreases |cs|
  {
    if cs != [] {
      assert ControlOk(cs[0]);
      ControlsAreSendable(server, cs[1..]);
    }
  }

  lemma {:induction false} AllAreSendable(server: bool, max: nat, ls: seq<Logical>)
    requires max < TWO_64 && AllDeliverable(max, ls)
    ensures AllSendable(AllFrames(server, ls))
    decreases |ls|
  {
    if ls != [] {
      assert Deliverable(max, ls[0]);
      match ls[0]
      case Data(op, frags) =>
        FragmentsAreSendable(server, op, frags);
        AllAreSendable(server, max, ls[1..]);
      case Control(c) =>
        ControlsAreSendable(server, [c]);
        AllAreSendable(server, max, ls[1..]);
    }
  }

  // ---------- frames to messages ----------

  lemma PrependPrepend(a: seq<Message>, b: seq<Message>, d: Drained)
    ensures Prepend(a, Prepend(b, d)) == Prepend(a + b, d)
    ensures Prepend([], d) == d
  {
    Associative(a, b, d.out);
    assert [] + d.out == d.out;
  }

  lemma AssembleNext(cfg: Config, asm: Option<Message>, f: WireFrame, rest: seq<WireFrame>)
    ensures Assemble(cfg, asm, [f] + rest) ==
            var r := FrameStep(cfg, asm, f);
            if r.Failed? then Drained([], Stopped(r.error))
            else if r.out.None? then Assemble(cfg, r.rx.asm, rest)
            else Prepend([r.out.value], Assemble(cfg, r.rx.asm, rest))
  {
    hide FrameStep;
    assert ([f] + rest)[1..] == rest;
  }

  lemma {:induction false} ControlsAssemble(cfg: Config, asm: Option<Message>, cs: seq<ControlMsg>,
                                            rest: seq<WireFrame>)
    requires forall c :: c in cs ==> ControlOk(c)
    ensures Assemble(cfg, asm, ControlFrames(!cfg.server, cs) + rest) ==
            Prepend(ControlMessages(cs), Assemble(cfg, asm, rest))
    decreases |cs|
  {
    hide Assemble, FrameStep;
    var later := Assemble(cfg, asm, rest);
    if cs == [] {
      assert ControlFrames(!cfg.server, cs) + rest == rest;
      PrependPrepend([], [], later);
    } else {
      var c, f := cs[0], ControlFrame(!cfg.server, cs[0]);
      assert ControlOk(c);
      ControlStep(cfg, asm, c);
      ControlsAssemble(cfg, asm, cs[1..], rest);
      Associative([f], ControlFrames(!cfg.server, cs[1..]), rest);
      AssembleNext(cfg, asm, f, ControlFrames(!cfg.server, cs[1..]) + rest);
      PrependPrepend([Message(c.op, c.payload)], ControlMessages(cs[1..]), later);
    }
  }

  lemma ControlStep(cfg: Config, asm: Option<Message>, c: ControlMsg)
    requires ControlOk(c)
    ensures FrameStep(cfg, asm, ControlFrame(!cfg.server, c)) == Next(Rx(asm, []), Some(Message(c.op, c.payload)))
  {
  }

  /** The message assembled before the next fragment of a message with opcode op. */
  function Before(op: byte, soFar: seq<byte>, first: bool): Option<Message> {
    if first then None else Some(Message(op, soFar))
  }

  lemma DataFrameStep(cfg: Config, op: byte, soFar: seq<byte>, f: Fragment, first: bool, last: bool, after: seq<byte>)
    requires op in {TEXT, BINARY} && (first ==> soFar == []) && (last ==> after == [])
    requires |soFar + f.payload + after| <= cfg.maxMessageSize < TWO_64
    requires op == TEXT ==> Utf8.WellFormed(soFar + f.payload + after)
    ensures var m := Message(op, soFar + f.payload);
            FrameStep(cfg, Before(op, soFar, first),
                      DataFrame(!cfg.server, if first then op else CONTINUATION, f, last)) ==
            if last then Next(Rx(None, []), Some(m)) else Next(Rx(Some(m), []), None)
  {
    hide Utf8.Run, Utf8.WellFormed;
    var text := soFar + f.payload;
    Utf8.NotRejectedIffExtensible(text);
    if last { assert text + after == text; }
    Utf8.AcceptsExactlyWellFormed(text);
    assert (|soFar| + |f.payload|) % TWO_64 == |soFar| + |f.payload|;
    assert !IsControl(TEXT) && !IsControl(BINARY) && !IsControl(CONTINUATION);
    var frame := DataFrame(!cfg.server, if first then op else CONTINUATION, f, last);
    assert FrameError(cfg, Before(op, soFar, first), frame).None?;
    assert Extended(Before(op, soFar, first), frame) == Message(op, text);
  }

  lemma {:induction false} FragmentsAssemble(cfg: Config, op: byte, soFar: seq<byte>, frags: seq<Fragment>, first: bool,
                                             rest: seq<WireFrame>)
    requires op in {TEXT, BINARY} && (first ==> soFar == []) && frags != []
    requires forall f :: f in frags ==> FragmentOk(f)
    requires |soFar + Text(frags)| <= cfg.maxMessageSize < TWO_64
    requires op == TEXT ==> Utf8.WellFormed(soFar + Text(frags))
    ensures Assemble(cfg, Before(op, soFar, first),
                     FragmentFrames(!cfg.server, if first then op else CONTINUATION, frags) + rest) ==
            Prepend(FragmentMessages(op, soFar, frags), Assemble(cfg, None, rest))
    decreases |frags|
  {
    hide Assemble, FrameStep, ControlFrames, ControlMessages, Utf8.WellFormed, DataFrame, Prepend;
    var f, asm, later := frags[0], Before(op, soFar, first), Assemble(cfg, None, rest);
    var frame := DataFrame(!cfg.server, if first then op else CONTINUATION, f, |frags| == 1);
    var controls, tail := ControlFrames(!cfg.server, f.before), FragmentFrames(!cfg.server, CONTINUATION, frags[1..]);
    var cs, text := ControlMessages(f.before), soFar + f.payload;
    assert FragmentOk(f);
    Associative(soFar, f.payload, Text(frags[1..]));
    Associative(controls, [frame], tail);
    Associative(controls, [frame] + tail, rest);
    Associative([frame], tail, rest);
    ControlsAssemble(cfg, asm, f.before, [frame] + (tail + rest));
    DataFrameStep(cfg, op, soFar, f, first, |frags| == 1, Text(frags[1..]));
    AssembleNext(cfg, asm, frame, tail + rest);
    if |frags| == 1 {
      assert tail + rest == rest;
      PrependPrepend(cs, [Message(op, text)], later);
    } else {
      FragmentsAssemble(cfg, op, text, frags[1..], false, rest);
      PrependPrepend(cs, FragmentMessages(op, text, frags[1..]), later);
    }
  }

  lemma {:induction false} AllAssemble(cfg: Config, ls: seq<Logical>)
    requires cfg.maxMessageSize < TWO_64 && AllDeliverable(cfg.maxMessageSize, ls)
    ensures Assemble(cfg, None, AllFrames(!cfg.server, ls)) == Drained(AllExpected(ls), Reading(IDLE))
    decreases |ls|
  {
    hide FrameStep, Utf8.WellFormed, FragmentFrames, ControlFrames;
    if ls != [] {
      assert Deliverable(cfg.maxMessageSize, ls[0]);
      AllAssemble(cfg, ls[1..]);
      var rest := AllFrames(!cfg.server, ls[1..]);
      match ls[0]
      case Data(op, frags) =>
        assert [] + Text(frags) == Text(frags);
        FragmentsAssemble(cfg, op, [], frags, true, rest);
      case Control(c) =>
        ControlsAssemble(cfg, None, [c], rest);
    }
  }

  /** The frames of any such list, cut up anyhow, are read as the list. */
  lemma FramesEndToEnd(server: bool, max: nat, ls: seq<Logical>, chunks: seq<seq<byte>>)
    requires max < TWO_64 && AllDeliverable(max, ls)
    ensures AllSendable(AllFrames(server, ls))
    ensures Flatten(chunks) == EncodeAll(AllFrames(server, ls)) ==>
              DrainChunks(Config(!server, max), IDLE, chunks) == Drained(AllExpected(ls), Reading(IDLE))
  {
    hide Drain, DrainChunks, Assemble, EncodeAll, AllFrames, AllExpected;
    var cfg := Config(!server, max);
    AllAreSendable(server, max, ls);
    if Flatten(chunks) == EncodeAll(AllFrames(server, ls)) {
      DrainOfChunks(cfg, IDLE, chunks);
      DrainOfFrames(cfg, None, AllFrames(server, ls));
      AllAssemble(cfg, ls);
    }
  }

  // ---------- the two endpoints ----------

  predicate AllOk(rs: seq<Result<Prepared>>) { forall r :: r in rs ==> r.Ok? }

  /** The octets of prepared messages, in order. */
  function ResultOctets(rs: seq<Result<Prepared>>): seq<byte>
    requires AllOk(rs)
  {
    if rs == [] then [] else WireOctets(rs[0].value) + ResultOctets(rs[1..])
  }

  ghost function ControlResults(server: bool, cs: seq<ControlMsg>): seq<Result<Prepared>>
    requires forall c :: c in cs ==> ControlOk(c)
    decreases |cs|
  {
    if cs == [] then []
    else
      assert ControlOk(cs[0]);
      [ControlResult(server, cs[0].op, cs[0].payload, cs[0].key)] + ControlResults(server, cs[1..])
  }

  /** What the sender's processor answers to the pieces of a data message and the controls between them. */
  ghost function FragmentResults(server: bool, op: byte, frags: seq<Fragment>): seq<Result<Prepared>>
    requires op <= 0xF && |Text(frags)| < TWO_64 && forall f :: f in frags ==> FragmentOk(f)
    decreases |frags|
  {
    if frags == [] then []
    else
      assert FragmentOk(frags[0]);
      ControlResults(server, frags[0].before)
      + [DataResult(server, op, |frags| == 1, frags[0].payload, frags[0].key)]
      + FragmentResults(server, CONTINUATION, frags[1..])
  }

  lemma {:induction false} ResultOctetsConcat(a: seq<Result<Prepared>>, b: seq<Result<Prepared>>)
    requires AllOk(a) && AllOk(b)
    ensures AllOk(a + b) && ResultOctets(a + b) == ResultOctets(a) + ResultOctets(b)
  {
    if a == [] {
      assert a + b == b;
    } else {
      ResultOctetsConcat(a[1..], b);
      assert (a + b)[0] == a[0] && (a + b)[1..] == a[1..] + b;
      Associative(WireOctets(a[0].value), ResultOctets(a[1..]), ResultOctets(b));
    }
  }

  lemma {:induction false} EncodeAllConcat(a: seq<WireFrame>, b: seq<WireFrame>)
    requires AllSendable(a) && AllSendable(b)
    ensures AllSendable(a + b) && EncodeAll(a + b) == EncodeAll(a) + EncodeAll(b)
    decreases |a|
  {
    hide Encode;
    if a == [] {
      assert a + b == b;
    } else {
      EncodeAllConcat(a[1..], b);
      assert (a + b)[1..] == a[1..] + b;
      Associative(Encode(a[0]), EncodeAll(a[1..]), EncodeAll(b));
    }
  }

  lemma CarriedOctets(f: WireFrame)
    requires Sendable(f)
    ensures ResultOctets([Ok(Carrying(f))]) == Encode(f) == EncodeAll([f])
  {
    var rs := [Ok(Carrying(f))];
    assert rs[1..] == [] && [f][1..] == [];
    assert ResultOctets([]) == [] && EncodeAll([]) == [];
    assert Encode(f) + [] == Encode(f);
  }

  lemma {:induction false} ControlsArePrepared(server: bool, cs: seq<ControlMsg>)
    requires forall c :: c in cs ==> ControlOk(c)
    ensures AllSendable(ControlFrames(server, cs)) && AllOk(ControlResults(server, cs))
    ensures ResultOctets(ControlResults(server, cs)) == EncodeAll(ControlFrames(server, cs))
    decreases |cs|
  {
    hide EncodeAll, ResultOctets, Encode, Carrying;
    ControlsAreSendable(server, cs);
    if cs == [] {
      assert ResultOctets([]) == EncodeAll([]) by { NothingSent(); }
    } else {
      assert ControlOk(cs[0]);
      var f := ControlFrame(server, cs[0]);
      ControlsArePrepared(server, cs[1..]);
      CarriedOctets(f);
      ResultOctetsConcat([Ok(Carrying(f))], ControlResults(server, cs[1..]));
      EncodeAllConcat([f], ControlFrames(server, cs[1..]));
    }
  }

  lemma NothingSent()
    ensures AllOk([]) && AllSendable([]) && ResultOctets([]) == EncodeAll([])
  {
  }

  /**
   A sender prepares every piece of a data message exactly if the piece that carries the opcode of
   a text message is well-formed by itself; the octets are then those of the frames.
   */
  lemma {:induction false} FragmentsArePrepared(server: bool, op: byte, frags: seq<Fragment>)
    requires op in {CONTINUATION, TEXT, BINARY} && |Text(frags)| < TWO_64 && forall f :: f in frags ==> FragmentOk(f)
    ensures AllSendable(FragmentFrames(server, op, frags))
    ensures AllOk(FragmentResults(server, op, frags)) <==>
            (op == TEXT && frags != [] ==> Utf8.WellFormed(frags[0].payload))
    ensures AllOk(FragmentResults(server, op, frags)) ==>
              ResultOctets(FragmentResults(server, op, frags)) == EncodeAll(FragmentFrames(server, op, frags))
    decreases |frags|
  {
    hide EncodeAll, ResultOctets, Encode, Carrying, ControlFrames, ControlResults, Utf8.WellFormed;
    FragmentsAreSendable(server, op, frags);
    if frags == [] {
      NothingSent();
    } else {
      var g := frags[0];
      assert FragmentOk(g);
      var f := DataFrame(server, op, g, |frags| == 1);
      var r := DataResult(server, op, |frags| == 1, g.payload, g.key);
      var cs, tail := ControlResults(server, g.before), FragmentResults(server, CONTINUATION, frags[1..]);
      ControlsArePrepared(server, g.before);
      FragmentsArePrepared(server, CONTINUATION, frags[1..]);
      assert !IsControl(TEXT) && !IsControl(BINARY) && !IsControl(CONTINUATION);
      assert FragmentResults(server, op, frags)[|cs|] == r;
      if r.Ok? {
        CarriedOctets(f);
        ResultOctetsConcat(cs, [r]);
        ResultOctetsConcat(cs + [r], tail);
        EncodeAllConcat(ControlFrames(server, g.before), [f]);
        EncodeAllConcat(ControlFrames(server, g.before) + [f], FragmentFrames(server, CONTINUATION, frags[1..]));
      }
    }
  }

  /** The piece that carries the text opcode, which is the one the sender looks at, is well-formed by itself. */
  ghost predicate FirstPieceOk(l: Logical) {
    l.Data? && l.op == TEXT && l.fragments != [] ==> Utf8.WellFormed(l.fragments[0].payload)
  }

  /** What the sender's processor answers to the pieces of a message. */
  ghost function ResultsOf(server: bool, max: nat, l: Logical): seq<Result<Prepared>>
    requires max < TWO_64 && Deliverable(max, l)
  {
    match l
    case Data(op, frags) => FragmentResults(server, op, frags)
    case Control(c) => ControlResults(server, [c])
  }

  lemma OneIsPrepared(server: bool, max: nat, l: Logical)
    requires max < TWO_64 && Deliverable(max, l)
    ensures AllSendable(FramesOf(server, l))
    ensures AllOk(ResultsOf(server, max, l)) <==> FirstPieceOk(l)
    ensures AllOk(ResultsOf(server, max, l)) ==>
              ResultOctets(ResultsOf(server, max, l)) == EncodeAll(FramesOf(server, l))
  {
    hide EncodeAll, ResultOctets, ControlFrames, FragmentFrames, ControlResults, FragmentResults, Utf8.WellFormed;
    match l {
      case Data(op, frags) => FragmentsArePrepared(server, op, frags);
      case Control(c) => ControlsArePrepared(server, [c]);
    }
  }

  /** What it answers to a list of messages. */
  ghost function AllResults(server: bool, max: nat, ls: seq<Logical>): seq<Result<Prepared>>
    requires max < TWO_64 && AllDeliverable(max, ls)
    decreases |ls|
  {
    if ls == [] then []
    else
      assert Deliverable(max, ls[0]);
      ResultsOf(server, max, ls[0]) + AllResults(server, max, ls[1..])
  }

  lemma {:induction false} AllArePrepared(server: bool, max: nat, ls: seq<Logical>)
    requires max < TWO_64 && AllDeliverable(max, ls)
    ensures AllSendable(AllFrames(server, ls))
    ensures AllOk(AllResults(server, max, ls)) <==> forall l :: l in ls ==> FirstPieceOk(l)
    ensures AllOk(AllResults(server, max, ls)) ==>
              ResultOctets(AllResults(server, max, ls)) == EncodeAll(AllFrames(server, ls))
    decreases |ls|
  {
    hide EncodeAll, ResultOctets, FramesOf, ResultsOf, FirstPieceOk, Deliverable, AllOk;
    if ls == [] {
      NothingSent();
    } else {
      var l, later := ls[0], ls[1..];
      assert Deliverable(max, l);
      AllArePrepared(server, max, later);
      OneIsPrepared(server, max, l);
      var a, b := ResultsOf(server, max, l), AllResults(server, max, later);
      AllOkConcat(a, b);
      assert forall m :: m in ls <==> m == l || m in later;
      EncodeAllConcat(FramesOf(server, l), AllFrames(server, later));
      if AllOk(a) && AllOk(b) { ResultOctetsConcat(a, b); }
    }
  }

  lemma AllOkConcat(a: seq<Result<Prepared>>, b: seq<Result<Prepared>>)
    ensures AllOk(a + b) <==> AllOk(a) && AllOk(b)
  {
    assert forall r :: r in a + b <==> r in a || r in b;
  }

  /**
   Whatever logical messages an endpoint is given within the limit of its peer, its processor prepares
   all of them exactly if every piece that carries the text opcode is well-formed by itself; and then,
   whatever masking keys it picks and however the network cuts up the octets prepared, the peer
   delivers exactly those messages.
   */
  lemma EndToEnd(server: bool, max: nat, ls: seq<Logical>, chunks: seq<seq<byte>>)
    requires max < TWO_64 && AllDeliverable(max, ls)
    ensures AllOk(AllResults(server, max, ls)) <==> forall l :: l in ls ==> FirstPieceOk(l)
    ensures AllOk(AllResults(server, max, ls)) && Flatten(chunks) == ResultOctets(AllResults(server, max, ls)) ==>
              DrainChunks(Config(!server, max), IDLE, chunks) == Drained(AllExpected(ls), Reading(IDLE))
  {
    hide *;
    AllArePrepared(server, max, ls);
    FramesEndToEnd(server, max, ls, chunks);
  }

  /** A deliverable text message cut within a character: the sender refuses its first piece. */
  lemma CutCharacterIsRefused(server: bool, key: seq<byte>)
    requires |key| == 4
    ensures var l := Data(TEXT, [Fragment([], [0xC3], key), Fragment([], [0xA9], key)]);
            Deliverable(2, l) && !FirstPieceOk(l) && !AllOk(AllResults(server, 2, [l]))
  {
    var l := Data(TEXT, [Fragment([], [0xC3], key), Fragment([], [0xA9], key)]);
    CutCharacter(key);
    hide *;
    assert AllDeliverable(2, [l]) by { OnlyOne(2, l); }
    AllArePrepared(server, 2, [l]);
    assert l in [l];
  }

  lemma OnlyOne(max: nat, l: Logical)
    requires Deliverable(max, l)
    ensures AllDeliverable(max, [l])
  {
  }

  lemma CutCharacter(key: seq<byte>)
    requires |key| == 4
    ensures var l := Data(TEXT, [Fragment([], [0xC3], key), Fragment([], [0xA9], key)]);
            Deliverable(2, l) && !FirstPieceOk(l)
  {
    hide Utf8.Run, Utf8.WellFormed;
    var frags := [Fragment([], [0xC3], key), Fragment([], [0xA9], key)];
    assert frags[1..] == [frags[1]] && frags[1..][1..] == [];
    assert Text(frags[1..][1..]) == [] && Text(frags[1..]) == [0xA9] && Text(frags) == [0xC3, 0xA9];
    assert Utf8.WellFormed([0xC3, 0xA9]) by { OneCharacter([0xC3, 0xA9]); }
    Delivery.HalfCharacter();
    Utf8.AcceptsExactlyWellFormed([0xC3]);
  }

  lemma OneCharacter(c: seq<byte>)
    requires Utf8.Utf8Char(c)
    ensures Utf8.WellFormed(c)
  {
    assert [c][1..] == [];
    assert Flatten([c]) == c + Flatten<byte>([]) == c;
    assert Utf8.AllChars([c]);
  }

  /** An endpoint that is handed a connection's octets chunk by chunk. */
  method Receive(server: bool, max: nat, little: bool, chunks: seq<seq<byte>>)
    returns (delivered: seq<Message>, ec: Option<ProcessorError>)
    ensures var d := DrainChunks(Config(server, max), IDLE, chunks);
            delivered == d.out && ec == if d.end.Stopped? then Some(d.end.error) else None
  {
    hide Drain;
    var p := new Receiver.Processor(server, max, little);
    delivered, ec := [], None;
    var i := 0;
    assert chunks[0..] == chunks;
    PrependPrepend([], [], DrainChunks(Config(server, max), IDLE, chunks));
    while i < |chunks|
      invariant 0 <= i <= |chunks| && ec == None
      invariant p.Valid() && p.state != Receiver.Ready && p.Cfg() == Config(server, max)
      invariant fresh(p) && fresh(p.ext) && fresh(p.dataUtf8)
      invariant DrainChunks(Config(server, max), IDLE, chunks) ==
                Prepend(delivered, DrainChunks(Config(server, max), p.rx, chunks[i..]))
    {
      var buf := new byte[|chunks[i]|](k requires 0 <= k < |chunks[i]| => chunks[i][k]);
      assert buf[..|chunks[i]|] == chunks[i];
      assert chunks[i..][1..] == chunks[i + 1..];
      ghost var before := delivered;
      var ms;
      ms, ec := p.ReadFrames(buf, |chunks[i]|);
      delivered := delivered + ms;
      if ec.Some? {
        return;
      }
      PrependPrepend(before, ms, DrainChunks(Config(server, max), p.rx, chunks[i + 1..]));
      i := i + 1;
    }
    assert delivered + [] == delivered;
  }
}
