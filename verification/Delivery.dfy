/** What a receiver promises about the messages it delivers, and where the code falls short of it. */
module Delivery {
  import opened Bytes
  import opened Frame
  import opened Stream
  import opened Wire
  import Utf8

  // ---------- text ----------

  /** Delivered text never contains an octet sequence that no further octets could complete. */
  lemma {:induction false} DeliveredTextIsExtensible(cfg: Config, rx: Rx, bs: seq<byte>, m: Message)
    requires Reachable(cfg, rx) && m in Drain(cfg, rx, bs).out
    ensures m.opcode in {TEXT, BINARY, CLOSE, PING, PONG}
    ensures m.opcode == TEXT ==> exists more: seq<byte> :: Utf8.WellFormed(m.payload + more)
    decreases |bs|
  {
    hide Feed, Complete, Full, Reachable, HeaderLen, Current;
    if bs != [] {
      var b := bs[0];
      if Feed(cfg, rx, b).Next? {
        var r := Feed(cfg, rx, b);
        FeedCases(cfg, rx, b);
        IdleBetween(cfg, rx);
        var p := rx.part + [b];
        if !(r == Next(Rx(rx.asm, p), None) && Reachable(cfg, r.rx)) {
          CompleteKeeps(cfg, rx.asm, p);
        }
        if r.out == Some(m) {
          Utf8.NotRejectedIffExtensible(m.payload);
        } else {
          DeliveredTextIsExtensible(cfg, r.rx, bs[1..], m);
        }
      }
    }
  }

  /**
   When the last frame of a text message arrives, an unfragmented message is delivered exactly if
   it is well-formed; a fragmented one exactly if it can be completed to well-formed text, because
   the final test looks at the opcode of the last frame.
   */
  lemma TextDelivery(cfg: Config, asm: Option<Message>, f: WireFrame)
    requires Reachable(cfg, Rx(asm, [])) && FrameError(cfg, asm, f).None? && f.fin
    requires Extended(asm, f).opcode == TEXT
    ensures var text := Extended(asm, f).payload;
            FrameStep(cfg, asm, f) == Next(Rx(None, []), Some(Message(TEXT, text)))
            <==> if f.op == TEXT then Utf8.WellFormed(text) else exists more: seq<byte> :: Utf8.WellFormed(text + more)
  {
    var text := Extended(asm, f).payload;
    assert !IsControl(TEXT);
    Utf8.AcceptsExactlyWellFormed(text);
    Utf8.NotRejectedIffExtensible(text);
    if f.payload == [] { assert Prior(asm) + f.payload == Prior(asm); }
  }

  /** So a fragmented text message can be delivered in the middle of a character. */
  lemma FragmentedTextMayBeIncomplete()
    ensures var key := Some([0, 0, 0, 0]);
            var frames := [WireFrame(TEXT, false, key, [0xC3]), WireFrame(CONTINUATION, true, key, [])];
            && AllSendable(frames)
            && Drain(Config(true, 32000000), IDLE, EncodeAll(frames)) ==
               Drained([Message(TEXT, [0xC3])], Reading(IDLE))
            && !Utf8.WellFormed([0xC3])
  {
    hide Utf8.Run, EncodeAll, Drain, Utf8.WellFormed;
    var cfg := Config(true, 32000000);
    var key := Some([0, 0, 0, 0]);
    var first, last := WireFrame(TEXT, false, key, [0xC3]), WireFrame(CONTINUATION, true, key, []);
    var frames := [first, last];
    DrainOfFrames(cfg, None, frames);
    HalfCharacter();
    Utf8.AcceptsExactlyWellFormed([0xC3]);
    var half := Message(TEXT, [0xC3]);
    assert [] + [0xC3] == [0xC3] && [0xC3] + [] == [0xC3];
    assert FrameError(cfg, None, first) == None;
    assert Extended(None, first) == half && !TextRejected(half);
    assert FrameStep(cfg, None, first) == Next(Rx(Some(half), []), None);
    assert (1 + 0) % TWO_64 == 1;
    assert FrameError(cfg, Some(half), last) == None;
    assert Extended(Some(half), last) == half;
    assert FrameStep(cfg, Some(half), last) == Next(Rx(None, []), Some(half));
    assert frames[1..] == [last] && [last][1..] == [];
    assert Assemble(cfg, Some(half), [last]) == Prepend([half], Assemble(cfg, None, []));
    assert [half] + [] == [half];
  }

  lemma HalfCharacter()
    ensures TextState([0xC3]) == 2
  {
    assert [0xC3][1..] == [];
    Utf8.ClassRanges(0xC3);
  }

  // ---------- the size limit ----------

  /** The limit holds for an accepted data frame exactly if the sum of sizes fits into 64 bits. */
  lemma LimitIsExact(cfg: Config, asm: Option<Message>, op: byte, size: nat)
    requires !IsControl(op) && size < TWO_64 && |Prior(asm)| <= cfg.maxMessageSize < TWO_64
    requires SizeCheck(cfg, asm, op, size) == None
    ensures |Prior(asm)| + size <= cfg.maxMessageSize <==> |Prior(asm)| + size < TWO_64
  {
    if |Prior(asm)| + size < TWO_64 {
      assert (|Prior(asm)| + size) % TWO_64 == |Prior(asm)| + size;
    }
  }

  /**
   Beyond that the check lets through what it should refuse: after a first frame of one octet, the
   header of a continuation of 2^64 - 1 octets is accepted under every limit.
   */
  lemma LimitCanWrapAround(cfg: Config, first: byte, key: Option<seq<byte>>)
    requires 1 <= cfg.maxMessageSize < TWO_64 && cfg.server == key.Some? && (key.Some? ==> |key.value| == 4)
    ensures var f, h := WireFrame(BINARY, false, key, [first]), Header(CONTINUATION, true, key, TWO_64 - 1);
            && Sendable(f) && HeaderRead(h)
            && Drain(cfg, IDLE, Encode(f) + h) == Drained([], Reading(Rx(Some(Message(BINARY, [first])), h)))
            && 1 + FrameSize(h) > cfg.maxMessageSize
  {
    var f, g := WireFrame(BINARY, false, key, [first]), WireFrame(CONTINUATION, true, key, seq(TWO_64 - 1, _ => 0));
    OneOctetFrame(cfg, first, key);
    HugeContinuation(cfg, first, key, g);
    hide *;
    FrameAndHeader(cfg, f, Some(Message(BINARY, [first])), FrameHeader(g));
  }

  /** After a frame that leaves a message to be continued, an accepted header waits for its payload. */
  lemma FrameAndHeader(cfg: Config, f: WireFrame, asm: Option<Message>, h: seq<byte>)
    requires Sendable(f) && FrameStep(cfg, None, f) == Next(Rx(asm, []), None)
    requires |h| >= 2 && |h| == HeaderLen(h[1]) && HeaderRead(h) && FrameSize(h) > 0
    requires BasicCheck(cfg, asm, h).None? && HeaderCheck(cfg, asm, h).None?
    ensures Drain(cfg, IDLE, Encode(f) + h) == Drained([], Reading(Rx(asm, h)))
  {
    assert IDLE == Rx(None, []);
    hide *;
    ConsumeFrame(cfg, None, f, h);
    assert h + [] == h;
    ConsumeBasic(cfg, asm, h, []);
    if |h| > 2 { ConsumeExtended(cfg, asm, h, []); }
    AwaitsPayload(cfg, asm, h);
    ResumesAfterFrame(cfg, asm, h);
    DrainByMessages(cfg, IDLE, Encode(f) + h);
  }

  lemma OneOctetFrame(cfg: Config, first: byte, key: Option<seq<byte>>)
    requires 1 <= cfg.maxMessageSize && cfg.server == key.Some? && (key.Some? ==> |key.value| == 4)
    ensures var f := WireFrame(BINARY, false, key, [first]);
            Sendable(f) && FrameStep(cfg, None, f) == Next(Rx(Some(Message(BINARY, [first])), []), None)
  {
    assert !IsControl(BINARY) && [] + [first] == [first];
  }

  /** The header of the continuation passes all checks and announces its size. */
  lemma HugeContinuation(cfg: Config, first: byte, key: Option<seq<byte>>, g: WireFrame)
    requires cfg.server == key.Some? && (key.Some? ==> |key.value| == 4)
    requires g.op == CONTINUATION && g.fin && g.key == key && |g.payload| == TWO_64 - 1
    ensures var asm, h := Some(Message(BINARY, [first])), Header(CONTINUATION, true, key, TWO_64 - 1);
            && |h| >= 2 && |h| == HeaderLen(h[1]) && HeaderRead(h) && FrameSize(h) == TWO_64 - 1
            && Sendable(g) && h == FrameHeader(g)
            && BasicCheck(cfg, asm, h).None? && HeaderCheck(cfg, asm, h).None?
  {
    hide FrameHeader, Header, BasicCheck, HeaderCheck, HeaderLen, FrameSize;
    var asm := Some(Message(BINARY, [first]));
    HeaderOctets(g);
    HeaderChecks(cfg, asm, g);
    assert FrameHeader(g) == Header(CONTINUATION, true, key, TWO_64 - 1) by { HeaderOf(g); }
    assert (1 + (TWO_64 - 1)) % TWO_64 == 0;
    assert !IsControl(CONTINUATION);
    assert FrameError(cfg, asm, g).None?;
  }

  lemma HeaderOf(f: WireFrame)
    requires Sendable(f)
    ensures FrameHeader(f) == Header(f.op, f.fin, f.key, |f.payload|)
  {
    hide Header;
  }

  lemma AwaitsPayload(cfg: Config, asm: Option<Message>, h: seq<byte>)
    requires HeaderRead(h) && HeaderCheck(cfg, asm, h).None? && FrameSize(h) > 0
    ensures Resume(cfg, AfterHeader(cfg, asm, h), []) == More(Rx(asm, h))
  {
  }

  lemma ResumesAfterFrame(cfg: Config, asm: Option<Message>, rest: seq<byte>)
    ensures Resume(cfg, Next(Rx(asm, []), None), rest) == ConsumeSpec(cfg, Rx(asm, []), rest)
  {
  }

  // ---------- what is refused, and how it is reported ----------

  /** The rules of section 5 of RFC 6455 and the size limit, by their numbers: exactly what is not refused. */
  lemma FrameRules(cfg: Config, asm: Option<Message>, f: WireFrame)
    requires Sendable(f)
    ensures FrameError(cfg, asm, f).None? <==>
              && f.op in {0x0, 0x1, 0x2, 0x8, 0x9, 0xA} && (f.key.Some? <==> cfg.server)
              && if f.op >= 0x8 then f.fin && |f.payload| <= 125
                 else (f.op == 0x0 <==> asm.Some?) && (|Prior(asm)| + |f.payload|) % TWO_64 <= cfg.maxMessageSize
    ensures FrameError(cfg, asm, f) == Some(MessageTooBig) ==>
              f.op < 0x8 && (|Prior(asm)| + |f.payload|) % TWO_64 > cfg.maxMessageSize
    ensures FrameError(cfg, asm, f) == Some(ControlTooBig) <==> f.op >= 0x8 && |f.payload| > 125
    ensures FrameError(cfg, asm, f).Some? ==>
              FrameError(cfg, asm, f).value in {ControlTooBig, InvalidOpcode, FragmentedControl, InvalidContinuation,
                                                MaskingRequired, MaskingForbidden, MessageTooBig}
  {
    OpcodeRules(f.op);
    hide IsControl, ReservedOpcode;
    if asm.None? { assert (|Prior(asm)| + |f.payload|) % TWO_64 == |f.payload|; }
  }

  lemma OpcodeRules(op: byte)
    requires op <= 0xF
    ensures op in {0x0, 0x1, 0x2, 0x8, 0x9, 0xA} <==> !ReservedOpcode(op)
    ensures IsControl(op) <==> op >= 0x8
  {
  }

  /** A frame that is refused ends the reading with its error, whatever follows. */
  lemma RefusedFrame(cfg: Config, asm: Option<Message>, f: WireFrame, rest: seq<byte>)
    requires Sendable(f) && FrameStep(cfg, asm, f).Failed?
    ensures Drain(cfg, Rx(asm, []), Encode(f) + rest) == Drained([], Stopped(FrameStep(cfg, asm, f).error))
  {
    ResumesNever(cfg, FrameStep(cfg, asm, f), rest);
    hide *;
    ConsumeFrame(cfg, asm, f, rest);
    DrainByMessages(cfg, Rx(asm, []), Encode(f) + rest);
  }

  lemma ResumesNever(cfg: Config, r: FeedResult, rest: seq<byte>)
    requires r.Failed?
    ensures Resume(cfg, r, rest) == Fail(r.error)
  {
  }

  /** A first frame or a continuation that takes its message over the limit is reported as too big. */
  lemma OversizedIsReported(cfg: Config, asm: Option<Message>, f: WireFrame, rest: seq<byte>)
    requires Sendable(f) && f.key.Some? == cfg.server
    requires if asm.None? then f.op in {0x1, 0x2} && |f.payload| > cfg.maxMessageSize
             else f.op == 0x0 && cfg.maxMessageSize < |asm.value.payload| + |f.payload| < TWO_64
    ensures Drain(cfg, Rx(asm, []), Encode(f) + rest) == Drained([], Stopped(MessageTooBig))
  {
    if asm.Some? {
      assert (|asm.value.payload| + |f.payload|) % TWO_64 == |asm.value.payload| + |f.payload|;
    }
    assert FrameStep(cfg, asm, f) == Failed(MessageTooBig) by { TooBig(cfg, asm, f); }
    hide *;
    RefusedFrame(cfg, asm, f, rest);
  }

  lemma TooBig(cfg: Config, asm: Option<Message>, f: WireFrame)
    requires f.key.Some? == cfg.server
    requires if asm.None? then f.op in {0x1, 0x2} && |f.payload| > cfg.maxMessageSize
             else f.op == 0x0 && (|asm.value.payload| + |f.payload|) % TWO_64 > cfg.maxMessageSize
    ensures FrameStep(cfg, asm, f) == Failed(MessageTooBig)
  {
    hide TextRejected;
    assert forall op: byte :: op in {0x0, 0x1, 0x2} ==> !IsControl(op) && !ReservedOpcode(op);
  }

  /** A header that is refused ends the reading with its error, whatever follows. */
  lemma RefusedHeader(cfg: Config, asm: Option<Message>, h: seq<byte>, rest: seq<byte>)
    requires |h| >= 2 && |h| == HeaderLen(h[1]) && HeaderRead(h)
    requires BasicCheck(cfg, asm, h).Some? || HeaderCheck(cfg, asm, h).Some?
    ensures Drain(cfg, Rx(asm, []), h + rest) == Drained([], Stopped(
              if BasicCheck(cfg, asm, h).Some? then BasicCheck(cfg, asm, h).value else HeaderCheck(cfg, asm, h).value))
  {
    if HeaderCheck(cfg, asm, h).Some? { ResumesNever(cfg, AfterHeader(cfg, asm, h), rest); }
    assert HeaderCheck(cfg, asm, h).Some? ==> AfterHeader(cfg, asm, h) == Failed(HeaderCheck(cfg, asm, h).value);
    hide *;
    ConsumeBasic(cfg, asm, h, rest);
    if |h| > 2 { ConsumeExtended(cfg, asm, h, rest); }
    DrainByMessages(cfg, Rx(asm, []), h + rest);
  }

  /** A reserved bit in the first octet of a data frame, and a size in more octets than it needs. */
  lemma BadHeaders(cfg: Config, asm: Option<Message>, h: seq<byte>, rest: seq<byte>)
    requires |h| >= 2 && |h| == HeaderLen(h[1]) && HeaderRead(h)
    ensures h[0] & 0x0F < 0x8 && h[0] & 0x70 != 0 ==>
              Drain(cfg, Rx(asm, []), h + rest) == Drained([], Stopped(InvalidRsvBit))
    ensures BasicCheck(cfg, asm, h).None? && ((h[1] & 0x7F == 126 && FrameSize(h) < 126)
                                              || (h[1] & 0x7F == 127 && FrameSize(h) < 65536)) ==>
              Drain(cfg, Rx(asm, []), h + rest) == Drained([], Stopped(NonMinimalEncoding))
  {
    ReservedBits(h[0]);
    hide Drain, HeaderLen, PayloadSize;
    if BasicCheck(cfg, asm, h).Some? || HeaderCheck(cfg, asm, h).Some? { RefusedHeader(cfg, asm, h, rest); }
  }

  lemma ReservedBits(b0: byte)
    ensures b0 & 0x70 != 0 <==> GetRsv1(b0) || GetRsv2(b0) || GetRsv3(b0)
    ensures b0 & 0x0F < 0x8 <==> !IsControl(GetOpcode(b0))
  {
  }

  const TWO_63: nat := 0x8000_0000_0000_0000

  /** What is buffered and what is still to come of the current frame stay within the limit. */
  predicate WithinLimit(cfg: Config, rx: Rx) {
    && |Prior(rx.asm)| <= cfg.maxMessageSize
    && (HeaderRead(rx.part) && !IsControl(GetOpcode(rx.part[0])) ==>
          |Prior(rx.asm)| + FrameSize(rx.part) <= cfg.maxMessageSize)
  }

  lemma FrameStepWithinLimit(cfg: Config, asm: Option<Message>, f: WireFrame)
    requires cfg.maxMessageSize < TWO_63 && |f.payload| < TWO_63 && |Prior(asm)| <= cfg.maxMessageSize
    requires FrameStep(cfg, asm, f).Next?
    ensures var r := FrameStep(cfg, asm, f);
            && |Prior(r.rx.asm)| <= cfg.maxMessageSize
            && (r.out.Some? && !IsControl(r.out.value.opcode) ==> |r.out.value.payload| <= cfg.maxMessageSize)
  {
    if !IsControl(f.op) { LimitIsExact(cfg, asm, f.op, |f.payload|); }
  }

  lemma {:induction false} AssembleWithinLimit(cfg: Config, asm: Option<Message>, frames: seq<WireFrame>)
    requires cfg.maxMessageSize < TWO_63 && |Prior(asm)| <= cfg.maxMessageSize
    requires forall f :: f in frames ==> |f.payload| < TWO_63
    ensures var d := Assemble(cfg, asm, frames);
            && (d.end.Reading? ==> |Prior(d.end.rx.asm)| <= cfg.maxMessageSize)
            && (forall m :: m in d.out && !IsControl(m.opcode) ==> |m.payload| <= cfg.maxMessageSize)
    decreases |frames|
  {
    hide FrameStep;
    if frames != [] && FrameStep(cfg, asm, frames[0]).Next? {
      FrameStepWithinLimit(cfg, asm, frames[0]);
      AssembleWithinLimit(cfg, FrameStep(cfg, asm, frames[0]).rx.asm, frames[1..]);
    }
  }

  /**
   At every point of a stream whose frames are shorter than 2^63 octets, as section 5.2 of RFC 6455
   requires, the octets buffered and still awaited are within the limit, and so is every data message
   delivered.
   */
  lemma BufferIsBounded(cfg: Config, bs: seq<byte>) returns (frames: seq<WireFrame>)
    requires cfg.maxMessageSize < TWO_63 && Drain(cfg, IDLE, bs).end.Reading?
    ensures AllSendable(frames) && EncodeAll(frames) + Drain(cfg, IDLE, bs).end.rx.part == bs
    ensures var d := Drain(cfg, IDLE, bs);
            (forall f :: f in frames ==> |f.payload| < TWO_63)
            && (HeaderRead(d.end.rx.part) ==> FrameSize(d.end.rx.part) < TWO_63)
            ==> WithinLimit(cfg, d.end.rx)
                && forall m :: m in d.out && !IsControl(m.opcode) ==> |m.payload| <= cfg.maxMessageSize
  {
    hide Drain, HeaderLen, FrameStep, GetOpcode, Encode;
    var d := Drain(cfg, IDLE, bs);
    frames := AcceptedIsFrames(cfg, bs);
    if forall f :: f in frames ==> |f.payload| < TWO_63 {
      AssembleWithinLimit(cfg, None, frames);
      var rx := d.end.rx;
      if HeaderRead(rx.part) && FrameSize(rx.part) < TWO_63 && !IsControl(GetOpcode(rx.part[0])) {
        LimitIsExact(cfg, rx.asm, GetOpcode(rx.part[0]), FrameSize(rx.part));
      }
    }
  }

  // ---------- control frames ----------

  function DataFrames(frames: seq<WireFrame>): seq<WireFrame> {
    if frames == [] then []
    else (if IsControl(frames[0].op) then [] else [frames[0]]) + DataFrames(frames[1..])
  }

  function DataMessages(ms: seq<Message>): seq<Message> {
    if ms == [] then [] else (if IsControl(ms[0].opcode) then [] else [ms[0]]) + DataMessages(ms[1..])
  }

  lemma FrameStepOpcode(cfg: Config, asm: Option<Message>, f: WireFrame)
    requires Reachable(cfg, Rx(asm, [])) && f.op <= 0xF && FrameStep(cfg, asm, f).Next?
    ensures var r := FrameStep(cfg, asm, f);
            && Reachable(cfg, r.rx) && r.rx.part == []
            && (IsControl(f.op) ==> r.rx.asm == asm && r.out == Some(Message(f.op, f.payload)))
            && (!IsControl(f.op) && r.out.Some? ==> !IsControl(r.out.value.opcode))
  {
    var m := Extended(asm, f);
    assert f.op in {CONTINUATION, TEXT, BINARY} || IsControl(f.op);
    assert !IsControl(TEXT) && !IsControl(BINARY);
    if f.payload == [] {
      assert Prior(asm) + f.payload == Prior(asm);
      assert TextState([]) == Utf8.ACCEPT;
    }
  }

  /** Control frames between fragments change nothing about the data messages and the data being assembled. */
  lemma {:induction false} ControlFramesAreTransparent(cfg: Config, asm: Option<Message>, frames: seq<WireFrame>)
    requires Reachable(cfg, Rx(asm, [])) && AllSendable(frames) && Assemble(cfg, asm, frames).end.Reading?
    ensures var d := Assemble(cfg, asm, frames);
            Assemble(cfg, asm, DataFrames(frames)) == Drained(DataMessages(d.out), d.end)
    decreases |frames|
  {
    hide FrameStep, Reachable;
    if frames != [] {
      var f, r := frames[0], FrameStep(cfg, asm, frames[0]);
      assert Sendable(f);
      FrameStepOpcode(cfg, asm, f);
      ControlFramesAreTransparent(cfg, r.rx.asm, frames[1..]);
      var d := Assemble(cfg, r.rx.asm, frames[1..]);
      if r.out.Some? {
        assert ([r.out.value] + d.out)[1..] == d.out;
      }
      if IsControl(f.op) {
        assert DataFrames(frames) == DataFrames(frames[1..]);
      } else {
        assert DataFrames(frames)[0] == f && DataFrames(frames)[1..] == DataFrames(frames[1..]);
      }
    }
  }
}
