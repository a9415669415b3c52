/**
 Frames on the wire: what a sequence of frames means (RFC 6455, section 5.4), and the proof that
 a receiver makes exactly that of their octets, and that any octets it accepts are such frames.
 */
module Wire {
  import opened Bytes
  import opened Frame
  import opened Stream
  import Mask
  import Utf8

  datatype WireFrame = WireFrame(op: byte, fin: bool, key: Option<seq<byte>>, payload: seq<byte>)

  predicate Sendable(f: WireFrame) {
    f.op <= 0xF && |f.payload| < TWO_64 && (f.key.Some? ==> |f.key.value| == 4)
  }

  function FrameHeader(f: WireFrame): seq<byte>
    requires Sendable(f)
  {
    Header(f.op, f.fin, f.key, |f.payload|)
  }

  function MaskedPayload(f: WireFrame): (r: seq<byte>)
    requires Sendable(f)
    ensures |r| == |f.payload|
  {
    if f.key.Some? then Mask.Masked(f.key.value, f.payload) else f.payload
  }

  function Encode(f: WireFrame): seq<byte>
    requires Sendable(f)
  {
    FrameHeader(f) + MaskedPayload(f)
  }

  // ---------- the meaning of a frame ----------

  /** Why a receiver refuses a frame before its payload. */
  function FrameError(cfg: Config, asm: Option<Message>, f: WireFrame): Option<ProcessorError> {
    if IsControl(f.op) && |f.payload| > PAYLOAD_SIZE_BASIC then Some(ControlTooBig)
    else if ReservedOpcode(f.op) then Some(InvalidOpcode)
    else if IsControl(f.op) && !f.fin then Some(FragmentedControl)
    else if asm.None? && f.op == CONTINUATION then Some(InvalidContinuation)
    else if asm.Some? && !IsControl(f.op) && f.op != CONTINUATION then Some(InvalidContinuation)
    else if cfg.server && f.key.None? then Some(MaskingRequired)
    else if !cfg.server && f.key.Some? then Some(MaskingForbidden)
    else SizeCheck(cfg, asm, f.op, |f.payload|)
  }

  function Extended(asm: Option<Message>, f: WireFrame): Message {
    if IsControl(f.op) then Message(f.op, f.payload)
    else Message(if asm.Some? then asm.value.opcode else f.op, Prior(asm) + f.payload)
  }

  /** Control frames stand alone; data frames extend the message being assembled until one has FIN set. */
  function FrameStep(cfg: Config, asm: Option<Message>, f: WireFrame): FeedResult {
    var m := Extended(asm, f);
    if FrameError(cfg, asm, f).Some? then Failed(FrameError(cfg, asm, f).value)
    else if IsControl(f.op) then Next(Rx(asm, []), Some(m))
    else if f.payload != [] && TextRejected(m) then Failed(InvalidUtf8)
    else if !f.fin then Next(Rx(Some(m), []), None)
    else if f.op == TEXT && TextState(m.payload) != Utf8.ACCEPT then Failed(InvalidUtf8)
    else Next(Rx(None, []), Some(m))
  }

  function Assemble(cfg: Config, asm: Option<Message>, frames: seq<WireFrame>): Drained
    decreases |frames|
  {
    if frames == [] then Drained([], Reading(Rx(asm, [])))
    else
      match FrameStep(cfg, asm, frames[0])
      case Failed(e) => Drained([], Stopped(e))
      case Next(next, None) => Assemble(cfg, next.asm, frames[1..])
      case Next(next, Some(m)) => Prepend([m], Assemble(cfg, next.asm, frames[1..]))
  }

  ghost predicate AllSendable(frames: seq<WireFrame>) { forall f :: f in frames ==> Sendable(f) }

  function EncodeAll(frames: seq<WireFrame>): seq<byte>
    requires AllSendable(frames)
  {
    if frames == [] then [] else Encode(frames[0]) + EncodeAll(frames[1..])
  }

  // ---------- reading an encoded frame ----------

  lemma HeaderOctets(f: WireFrame)
    requires Sendable(f)
    ensures var h := FrameHeader(f);
            && |h| >= 2 && |h| == HeaderLen(h[1]) && HeaderRead(h)
            && GetOpcode(h[0]) == f.op && GetFin(h[0]) == f.fin
            && !GetRsv1(h[0]) && !GetRsv2(h[0]) && !GetRsv3(h[0])
            && GetMasked(h[1]) == f.key.Some? && GetBasicSize(h[1]) == SizeCode(|f.payload|)
            && FrameSize(h) == |f.payload|
            && (f.key.Some? ==> FrameKey(h) == f.key.value)
            && ValidateExtended(h[1], Ext(h)) == None
  {
    hide GetOpcode, GetFin, GetRsv1, GetRsv2, GetRsv3, GetMasked, GetBasicSize, PayloadSize, MaskingKey,
      ValidateExtended, SizeOctets, SizeCode, FirstByte, SecondByte, ExtendedHeader, HeaderLen;
    DecodeOfEncode(f.op, f.fin, f.key, |f.payload|);
    var b1, ext := SecondByte(|f.payload|, f.key.Some?), ExtendedHeader(|f.payload|, f.key);
    OnlyHeaderOctetsMatter(b1, ext);
    assert Ext(FrameHeader(f)) == ext[..HeaderLen(b1) - BASIC_HEADER_LENGTH];
  }

  lemma ControlSize(n: nat)
    ensures SizeCode(n) > 125 <==> n > PAYLOAD_SIZE_BASIC
  {
    if n <= PAYLOAD_SIZE_BASIC { SmallSize(n); }
  }

  /** The checks on the octets of a header are the checks on the frame. */
  lemma HeaderChecks(cfg: Config, asm: Option<Message>, f: WireFrame)
    requires Sendable(f)
    ensures var h := FrameHeader(f);
            && |h| >= 2 && HeaderRead(h)
            && FrameError(cfg, asm, f) ==
               if BasicCheck(cfg, asm, h).Some? then BasicCheck(cfg, asm, h) else HeaderCheck(cfg, asm, h)
  {
    hide GetOpcode, GetFin, GetRsv1, GetRsv2, GetRsv3, GetMasked, GetBasicSize, PayloadSize, MaskingKey,
      ValidateExtended, FrameSize, SizeCode, HeaderLen, FrameHeader, SizeCheck;
    HeaderOctets(f);
    ControlSize(|f.payload|);
    assert !InvalidOpcodeValue(f.op);
  }

  /** The frame as its octets show it. */
  lemma PayloadOctets(asm: Option<Message>, f: WireFrame)
    requires Sendable(f)
    ensures HeaderRead(FrameHeader(f)) && HeaderRead(Encode(f))
    ensures Encode(f)[0] == FrameHeader(f)[0] && Encode(f)[1] == FrameHeader(f)[1]
    ensures Body(Encode(f)) == f.payload && Current(asm, Encode(f)) == Extended(asm, f)
  {
    hide GetOpcode, GetFin, GetMasked, PayloadSize, MaskingKey, HeaderLen, FrameHeader, FrameSize, FrameKey, Raw,
      Mask.Masked, Mask.Rotate, Body;
    HeaderOctets(f);
    var h := FrameHeader(f);
    BodyGrows(h, MaskedPayload(f));
    NoBodyYet(asm, h);
    if f.key.Some? { Mask.MaskIsInvolution(f.key.value, f.payload); }
    assert Encode(f)[..2] == h[..2];
  }

  lemma CompleteFrame(cfg: Config, asm: Option<Message>, f: WireFrame, part: seq<byte>)
    requires HeaderRead(part) && Current(asm, part) == Extended(asm, f)
    requires GetOpcode(part[0]) == f.op && GetFin(part[0]) == f.fin
    requires FrameError(cfg, asm, f).None? && (f.payload != [] ==> !TextRejected(Extended(asm, f)))
    ensures Complete(asm, part) == FrameStep(cfg, asm, f)
  {
    hide Current, GetOpcode, GetFin, SizeCheck;
  }

  /** Fed to a receiver between frames, the octets of a frame do what the frame means. */
  lemma ConsumeFrame(cfg: Config, asm: Option<Message>, f: WireFrame, rest: seq<byte>)
    requires Sendable(f)
    ensures ConsumeSpec(cfg, Rx(asm, []), Encode(f) + rest) == Resume(cfg, FrameStep(cfg, asm, f), rest)
  {
    hide ConsumeSpec, FrameHeader, HeaderLen, FrameError, BasicCheck, HeaderCheck, Current, Extended,
      TextRejected, FrameSize, Body, GetOpcode, GetFin, Complete;
    var h := FrameHeader(f);
    HeaderOctets(f);
    HeaderChecks(cfg, asm, f);
    PayloadOctets(asm, f);
    ConsumeHeader(cfg, asm, f, rest);
    if FrameError(cfg, asm, f).None? {
      if f.payload == [] {
        assert MaskedPayload(f) + rest == rest && Encode(f) == h;
        CompleteFrame(cfg, asm, f, h);
      } else {
        var bs := MaskedPayload(f) + rest;
        PayloadInBulk(cfg, asm, h, bs, |f.payload|);
        assert bs[..|f.payload|] == MaskedPayload(f) && bs[|f.payload|..] == rest;
        if TextRejected(Extended(asm, f)) {
          OnlyDataIsText(asm, f);
        } else {
          CompleteFrame(cfg, asm, f, Encode(f));
        }
      }
    }
  }

  lemma OnlyDataIsText(asm: Option<Message>, f: WireFrame)
    requires TextRejected(Extended(asm, f))
    ensures !IsControl(f.op)
  {
  }

  /** The first two octets of a header, followed by the others and something else. */
  lemma ConsumeBasic(cfg: Config, asm: Option<Message>, h: seq<byte>, tail: seq<byte>)
    requires |h| >= 2 && |h| == HeaderLen(h[1]) && HeaderRead(h)
    ensures ConsumeSpec(cfg, Rx(asm, []), h + tail) ==
            if BasicCheck(cfg, asm, h).Some? then Fail(BasicCheck(cfg, asm, h).value)
            else if |h| > 2 then ConsumeSpec(cfg, Rx(asm, h[..2]), h[2..] + tail)
            else Resume(cfg, AfterHeader(cfg, asm, h), tail)
  {
    hide ConsumeSpec, Resume, HeaderLen, BasicCheck, AfterHeader;
    Splits(h, tail);
    BasicUnfolds(cfg, Rx(asm, []), h + tail, 2);
    assert [] + (h + tail)[..2] == h[..2];
    BasicCheckOfPrefix(cfg, asm, h[..2], h);
    if |h| == 2 { assert h[..2] == h && h[2..] + tail == tail; }
  }

  /** The rest of a header, after its first two octets. */
  lemma ConsumeExtended(cfg: Config, asm: Option<Message>, h: seq<byte>, tail: seq<byte>)
    requires |h| > 2 && |h| == HeaderLen(h[1]) && HeaderRead(h)
    ensures ConsumeSpec(cfg, Rx(asm, h[..2]), h[2..] + tail) == Resume(cfg, AfterHeader(cfg, asm, h), tail)
  {
    hide ConsumeSpec, Resume, HeaderLen, AfterHeader;
    Splits(h, tail);
    HeaderInBulk(cfg, asm, h[..2], h[2..] + tail, |h| - 2);
  }

  lemma ConsumeHeader(cfg: Config, asm: Option<Message>, f: WireFrame, rest: seq<byte>)
    requires Sendable(f)
    ensures var h := FrameHeader(f);
            && |h| >= 2 && HeaderRead(h)
            && ConsumeSpec(cfg, Rx(asm, []), Encode(f) + rest) ==
               if BasicCheck(cfg, asm, h).Some? then Fail(BasicCheck(cfg, asm, h).value)
               else Resume(cfg, AfterHeader(cfg, asm, h), MaskedPayload(f) + rest)
  {
    HeaderOctets(f);
    var h, tail := FrameHeader(f), MaskedPayload(f) + rest;
    assert Encode(f) + rest == h + tail by { Associative(h, MaskedPayload(f), rest); }
    hide *;
    ConsumeBasic(cfg, asm, h, tail);
    if |h| > 2 { ConsumeExtended(cfg, asm, h, tail); }
  }

  /** A header followed by something, cut after two octets and after the header. */
  lemma Splits(h: seq<byte>, tail: seq<byte>)
    requires |h| >= 2
    ensures (h + tail)[..2] == h[..2] && (h + tail)[2..] == h[2..] + tail
    ensures h[..2] + (h[2..] + tail)[..|h| - 2] == h && (h[2..] + tail)[|h| - 2..] == tail
  {
  }

  lemma BasicCheckOfPrefix(cfg: Config, asm: Option<Message>, a: seq<byte>, b: seq<byte>)
    requires |a| >= 2 && |b| >= 2 && a[0] == b[0] && a[1] == b[1]
    ensures BasicCheck(cfg, asm, a) == BasicCheck(cfg, asm, b)
  {
  }

  /** The octets of any sequence of frames, in order, mean what the frames mean. */
  lemma {:induction false} DrainOfFrames(cfg: Config, asm: Option<Message>, frames: seq<WireFrame>)
    requires AllSendable(frames)
    ensures Drain(cfg, Rx(asm, []), EncodeAll(frames)) == Assemble(cfg, asm, frames)
    decreases |frames|
  {
    hide Drain, ConsumeSpec, Encode, FrameStep;
    if frames == [] {
      NothingToDrain(cfg, Rx(asm, []));
    } else {
      var rest := EncodeAll(frames[1..]);
      DrainByMessages(cfg, Rx(asm, []), EncodeAll(frames));
      ConsumeFrame(cfg, asm, frames[0], rest);
      match FrameStep(cfg, asm, frames[0])
      case Failed(_) =>
      case Next(next, None) =>
        FrameStepEndsFrame(cfg, asm, frames[0]);
        DrainByMessages(cfg, next, rest);
        DrainOfFrames(cfg, next.asm, frames[1..]);
      case Next(next, Some(_)) =>
        FrameStepEndsFrame(cfg, asm, frames[0]);
        DrainOfFrames(cfg, next.asm, frames[1..]);
    }
  }

  lemma FrameStepEndsFrame(cfg: Config, asm: Option<Message>, f: WireFrame)
    ensures FrameStep(cfg, asm, f).Next? ==> FrameStep(cfg, asm, f).rx.part == []
  {
  }

  // ---------- everything accepted is frames ----------

  /** What holds between two octets as long as there was no error. */
  predicate Reachable(cfg: Config, rx: Rx) {
    && (rx.asm.Some? ==> rx.asm.value.opcode in {TEXT, BINARY} && !TextRejected(rx.asm.value))
    && (|rx.part| >= 2 ==> BasicCheck(cfg, rx.asm, rx.part).None?)
    && (HeaderRead(rx.part) ==>
          && HeaderCheck(cfg, rx.asm, rx.part).None?
          && |rx.part| < HeaderLen(rx.part[1]) + FrameSize(rx.part)
          && !TextRejected(Current(rx.asm, rx.part)))
  }

  lemma PartGrows(part: seq<byte>, b: byte)
    requires HeaderRead(part)
    ensures HeaderRead(part + [b]) && FrameSize(part + [b]) == FrameSize(part)
    ensures (part + [b])[0] == part[0] && (part + [b])[1] == part[1]
  {
    hide HeaderLen, PayloadSize;
    assert Ext(part + [b]) == Ext(part);
  }

  /** A frame is complete: no payload octet is missing and every check has passed. */
  predicate Full(cfg: Config, asm: Option<Message>, part: seq<byte>) {
    && HeaderRead(part) && BasicCheck(cfg, asm, part).None? && HeaderCheck(cfg, asm, part).None?
    && |part| == HeaderLen(part[1]) + FrameSize(part)
  }

  /** One more octet: either the frame goes on, or it is full and completes. */
  lemma FeedCases(cfg: Config, rx: Rx, b: byte)
    requires Reachable(cfg, rx) && Feed(cfg, rx, b).Next?
    ensures var p, r := rx.part + [b], Feed(cfg, rx, b);
            || (r == Next(Rx(rx.asm, p), None) && Reachable(cfg, r.rx))
            || (Full(cfg, rx.asm, p) && r == Complete(rx.asm, p)
                && (|p| > HeaderLen(p[1]) ==> !TextRejected(Current(rx.asm, p))))
  {
    hide HeaderLen, ValidateBasic, HeaderCheck, Current, TextRejected, PayloadSize;
    var p := rx.part + [b];
    if |p| >= 2 && |rx.part| >= 2 { BasicCheckOfPrefix(cfg, rx.asm, rx.part, p); }
    if HeaderRead(rx.part) {
      PartGrows(rx.part, b);
      HeaderCheckGrows(cfg, rx.asm, rx.part, b);
    } else if HeaderRead(p) {
      TextBeforePayload(rx.asm, p);
    }
  }

  lemma HeaderCheckGrows(cfg: Config, asm: Option<Message>, part: seq<byte>, b: byte)
    requires HeaderRead(part)
    ensures HeaderRead(part + [b]) && HeaderCheck(cfg, asm, part + [b]) == HeaderCheck(cfg, asm, part)
  {
    hide HeaderLen, PayloadSize;
    PartGrows(part, b);
    assert Ext(part + [b]) == Ext(part);
  }

  lemma TextBeforePayload(asm: Option<Message>, part: seq<byte>)
    requires HeaderRead(part) && |part| == HeaderLen(part[1])
    requires asm.Some? ==> !TextRejected(asm.value)
    ensures !TextRejected(Current(asm, part))
  {
    hide HeaderLen;
    NoBodyYet(asm, part);
  }

  function FrameOf(part: seq<byte>): WireFrame
    requires HeaderRead(part)
  {
    WireFrame(GetOpcode(part[0]), GetFin(part[0]),
              if GetMasked(part[1]) then Some(FrameKey(part)) else None, Body(part))
  }

  lemma OpcodeIsNibble(b0: byte)
    ensures GetOpcode(b0) <= 0xF
  {
  }

  lemma HeaderPrefix(cfg: Config, asm: Option<Message>, part: seq<byte>)
    requires HeaderRead(part)
    ensures var h := part[..HeaderLen(part[1])];
            && HeaderRead(h) && Ext(h) == Ext(part) && BasicCheck(cfg, asm, h) == BasicCheck(cfg, asm, part)
            && HeaderCheck(cfg, asm, h) == HeaderCheck(cfg, asm, part)
  {
    hide HeaderLen, ValidateBasic, PayloadSize;
    assert Ext(part[..HeaderLen(part[1])]) == Ext(part);
  }

  /** A full frame is the encoding of the frame read from it. */
  lemma FullIsEncoded(cfg: Config, asm: Option<Message>, part: seq<byte>)
    requires Full(cfg, asm, part)
    ensures Sendable(FrameOf(part)) && Encode(FrameOf(part)) == part
    ensures FrameHeader(FrameOf(part)) == part[..HeaderLen(part[1])]
  {
    hide HeaderLen, ValidateBasic, ValidateExtended, Header, GetOpcode, GetFin, GetMasked, PayloadSize, MaskingKey,
      Mask.Masked;
    OpcodeIsNibble(part[0]);
    var f, n := FrameOf(part), HeaderLen(part[1]);
    EncodeOfDecode(part[0], part[1], Ext(part), cfg.server, asm.None?);
    assert [part[0], part[1]] + Ext(part) == part[..n];
    if f.key.Some? { Mask.MaskIsInvolution(FrameKey(part), Raw(part)); }
    assert part == part[..n] + Raw(part);
  }

  /** Completing a full frame is taking the step of the frame read from it. */
  lemma FullIsFrame(cfg: Config, asm: Option<Message>, part: seq<byte>)
    requires Full(cfg, asm, part)
    requires |part| > HeaderLen(part[1]) ==> !TextRejected(Current(asm, part))
    ensures Sendable(FrameOf(part)) && Encode(FrameOf(part)) == part
    ensures FrameStep(cfg, asm, FrameOf(part)) == Complete(asm, part)
  {
    hide HeaderLen, BasicCheck, HeaderCheck, FrameError, FrameHeader, Encode, GetOpcode, GetFin, GetMasked, Body,
      TextRejected, FrameStep, Complete;
    FullIsEncoded(cfg, asm, part);
    HeaderPrefix(cfg, asm, part);
    HeaderChecks(cfg, asm, FrameOf(part));
    CompleteFrame(cfg, asm, FrameOf(part), part);
  }

  /** What completing a frame leaves behind, and what it hands out. */
  lemma CompleteKeeps(cfg: Config, asm: Option<Message>, part: seq<byte>)
    requires Full(cfg, asm, part) && Reachable(cfg, Rx(asm, []))
    requires |part| > HeaderLen(part[1]) ==> !TextRejected(Current(asm, part))
    ensures var r := Complete(asm, part);
            r.Next? ==>
              && Reachable(cfg, r.rx) && r.rx.part == []
              && (r.out.Some? ==> r.out.value.opcode in {TEXT, BINARY, CLOSE, PING, PONG} && !TextRejected(r.out.value))
              && (r.out.Some? && GetOpcode(part[0]) == TEXT ==> Utf8.WellFormed(r.out.value.payload))
  {
    hide HeaderLen, ValidateBasic, HeaderCheck, Body, GetOpcode, GetFin, FrameSize;
    FrameOpcodes(part[0], part[1], cfg.server, asm.None?);
    if |part| == HeaderLen(part[1]) { TextBeforePayload(asm, part); }
    Utf8.AcceptsExactlyWellFormed(Current(asm, part).payload);
    assert !IsControl(TEXT) && !IsControl(BINARY) && IsControl(CLOSE) && IsControl(PING) && IsControl(PONG);
  }

  lemma DrainOne(cfg: Config, rx: Rx, b: byte)
    ensures Drain(cfg, rx, [b]) ==
            match Feed(cfg, rx, b)
            case Failed(e) => Drained([], Stopped(e))
            case Next(next, None) => Drained([], Reading(next))
            case Next(next, Some(m)) => Drained([m], Reading(next))
  {
    hide Feed;
    assert [b][1..] == [];
    match Feed(cfg, rx, b)
    case Failed(_) =>
    case Next(next, _) => NothingToDrain(cfg, next);
  }

  lemma {:induction false} AssembleConcat(cfg: Config, asm: Option<Message>, a: seq<WireFrame>, b: seq<WireFrame>)
    ensures Assemble(cfg, asm, a + b) ==
            var d := Assemble(cfg, asm, a);
            if d.end.Stopped? then d else Prepend(d.out, Assemble(cfg, d.end.rx.asm, b))
    decreases |a|
  {
    hide FrameStep;
    if a == [] {
      assert a + b == b;
    } else {
      assert (a + b)[0] == a[0] && (a + b)[1..] == a[1..] + b;
      match FrameStep(cfg, asm, a[0])
      case Failed(_) =>
      case Next(next, _) => AssembleConcat(cfg, next.asm, a[1..], b);
    }
  }

  lemma {:induction false} EncodeAllSnoc(frames: seq<WireFrame>, f: WireFrame)
    requires AllSendable(frames) && Sendable(f)
    ensures AllSendable(frames + [f]) && EncodeAll(frames + [f]) == EncodeAll(frames) + Encode(f)
    decreases |frames|
  {
    hide Encode;
    if frames == [] {
      assert frames + [f] == [f] && [f][1..] == [];
    } else {
      EncodeAllSnoc(frames[1..], f);
      assert (frames + [f])[0] == frames[0] && (frames + [f])[1..] == frames[1..] + [f];
    }
  }

  /** One more full frame. */
  lemma AssembleOneMore(cfg: Config, asm: Option<Message>, frames: seq<WireFrame>, f: WireFrame)
    requires var d := Assemble(cfg, asm, frames); d.end.Reading? && FrameStep(cfg, d.end.rx.asm, f).Next?
    ensures var d := Assemble(cfg, asm, frames);
            var r := FrameStep(cfg, d.end.rx.asm, f);
            Assemble(cfg, asm, frames + [f]) ==
            Drained(d.out + (if r.out.Some? then [r.out.value] else []), Reading(Rx(r.rx.asm, [])))
  {
    hide FrameStep;
    AssembleConcat(cfg, asm, frames, [f]);
    assert [f][1..] == [];
    var d := Assemble(cfg, asm, frames);
    var r := FrameStep(cfg, d.end.rx.asm, f);
    assert Assemble(cfg, r.rx.asm, []) == Drained([], Reading(Rx(r.rx.asm, [])));
    assert r.out.Some? ==> [r.out.value] + [] == [r.out.value];
  }

  /**
   Octets a receiver has accepted are the encoding of a sequence of frames and the beginning of
   another one, and what it has delivered is what the frames mean.
   */
  lemma {:induction false} AcceptedIsFrames(cfg: Config, bs: seq<byte>) returns (frames: seq<WireFrame>)
    requires Drain(cfg, IDLE, bs).end.Reading?
    ensures AllSendable(frames)
    ensures var d := Drain(cfg, IDLE, bs);
            && Reachable(cfg, d.end.rx)
            && EncodeAll(frames) + d.end.rx.part == bs
            && Assemble(cfg, None, frames) == Drained(d.out, Reading(Rx(d.end.rx.asm, [])))
  {
    hide Drain, Feed, Encode, FrameStep, Complete, Full, Reachable, HeaderLen, Current, TextRejected;
    if bs == [] {
      NothingToDrain(cfg, IDLE);
      assert Reachable(cfg, IDLE) by { IdleIsReachable(cfg); }
      return [];
    }
    var init, b := bs[..|bs| - 1], bs[|bs| - 1];
    assert bs == init + [b];
    DrainConcat(cfg, IDLE, init, [b]);
    frames := AcceptedIsFrames(cfg, init);
    var d := Drain(cfg, IDLE, init);
    var rx := d.end.rx;
    DrainOne(cfg, rx, b);
    FeedCases(cfg, rx, b);
    var p := rx.part + [b];
    assert EncodeAll(frames) + p == bs;
    if Feed(cfg, rx, b) == Next(Rx(rx.asm, p), None) && Reachable(cfg, Rx(rx.asm, p)) {
      assert d.out + [] == d.out;
    } else {
      IdleBetween(cfg, rx);
      CompleteKeeps(cfg, rx.asm, p);
      FullIsFrame(cfg, rx.asm, p);
      EncodeAllSnoc(frames, FrameOf(p));
      AssembleOneMore(cfg, None, frames, FrameOf(p));
      frames := frames + [FrameOf(p)];
      assert EncodeAll(frames) + [] == bs;
    }
  }

  lemma IdleIsReachable(cfg: Config)
    ensures Reachable(cfg, IDLE)
  {
  }

  lemma IdleBetween(cfg: Config, rx: Rx)
    requires Reachable(cfg, rx)
    ensures Reachable(cfg, Rx(rx.asm, []))
  {
  }
}
