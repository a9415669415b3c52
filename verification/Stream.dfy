/**
 What a receiver does with a stream of octets, one octet at a time. The state is the data
 message being assembled and the octets of the current frame received so far; everything else
 a receiver keeps is a function of these two.
 */
module Stream {
  import opened Bytes
  import opened Frame
  import Mask
  import Utf8

  datatype Config = Config(server: bool, maxMessageSize: nat)

  datatype Message = Message(opcode: byte, payload: seq<byte>)

  datatype Rx = Rx(asm: Option<Message>, part: seq<byte>)

  datatype FeedResult = Failed(error: ProcessorError) | Next(rx: Rx, out: Option<Message>)

  const IDLE: Rx := Rx(None, [])

  // ---------- the current frame ----------

  predicate HeaderRead(part: seq<byte>) { |part| >= 2 && |part| >= HeaderLen(part[1]) }

  function Ext(part: seq<byte>): (e: seq<byte>)
    requires HeaderRead(part)
    ensures |e| == HeaderLen(part[1]) - BASIC_HEADER_LENGTH
  {
    part[2..HeaderLen(part[1])]
  }

  function FrameSize(part: seq<byte>): nat
    requires HeaderRead(part)
  {
    PayloadSize(part[1], Ext(part))
  }

  function FrameKey(part: seq<byte>): (key: seq<byte>)
    requires HeaderRead(part)
    ensures |key| == 4
  {
    MaskingKey(part[1], Ext(part))
  }

  function Raw(part: seq<byte>): seq<byte>
    requires HeaderRead(part)
  {
    part[HeaderLen(part[1])..]
  }

  /** The unmasked payload octets of the frame received so far. */
  function Body(part: seq<byte>): (body: seq<byte>)
    requires HeaderRead(part)
    ensures |body| == |part| - HeaderLen(part[1])
  {
    if GetMasked(part[1]) then Mask.Masked(FrameKey(part), Raw(part)) else Raw(part)
  }

  function Prior(asm: Option<Message>): seq<byte> {
    if asm.Some? then asm.value.payload else []
  }

  /** The message the current frame adds to, as far as it has been received. */
  function Current(asm: Option<Message>, part: seq<byte>): Message
    requires HeaderRead(part)
  {
    var op := GetOpcode(part[0]);
    if IsControl(op) then Message(op, Body(part))
    else Message(if asm.Some? then asm.value.opcode else op, Prior(asm) + Body(part))
  }

  function TextState(payload: seq<byte>): nat { Utf8.Run(Utf8.START, payload).state }

  predicate TextRejected(m: Message) { m.opcode == TEXT && TextState(m.payload) == Utf8.REJECT }

  // ---------- one octet ----------

  /** The size limit, with the sum in 64-bit arithmetic. */
  function SizeCheck(cfg: Config, asm: Option<Message>, op: byte, size: nat): Option<ProcessorError> {
    if IsControl(op) then None
    else if asm.None? then (if size > cfg.maxMessageSize then Some(MessageTooBig) else None)
    else if (|asm.value.payload| + size) % TWO_64 > cfg.maxMessageSize then Some(MessageTooBig)
    else None
  }

  function HeaderCheck(cfg: Config, asm: Option<Message>, part: seq<byte>): Option<ProcessorError>
    requires HeaderRead(part)
  {
    if ValidateExtended(part[1], Ext(part)).Some? then ValidateExtended(part[1], Ext(part))
    else SizeCheck(cfg, asm, GetOpcode(part[0]), FrameSize(part))
  }

  /** The last octet of a frame is in. */
  function Complete(asm: Option<Message>, part: seq<byte>): FeedResult
    requires HeaderRead(part)
  {
    var op, m := GetOpcode(part[0]), Current(asm, part);
    if !GetFin(part[0]) then Next(Rx(if IsControl(op) then asm else Some(m), []), None)
    else if op == TEXT && TextState(m.payload) != Utf8.ACCEPT then Failed(InvalidUtf8)
    else Next(Rx(if IsControl(op) then asm else None, []), Some(m))
  }

  /** The last octet of a header is in. */
  function AfterHeader(cfg: Config, asm: Option<Message>, part: seq<byte>): FeedResult
    requires HeaderRead(part)
  {
    if HeaderCheck(cfg, asm, part).Some? then Failed(HeaderCheck(cfg, asm, part).value)
    else if FrameSize(part) == 0 then Complete(asm, part)
    else Next(Rx(asm, part), None)
  }

  /** A payload octet is in. */
  function AfterPayload(asm: Option<Message>, part: seq<byte>): FeedResult
    requires HeaderRead(part)
  {
    if TextRejected(Current(asm, part)) then Failed(InvalidUtf8)
    else if |part| == HeaderLen(part[1]) + FrameSize(part) then Complete(asm, part)
    else Next(Rx(asm, part), None)
  }

  function BasicCheck(cfg: Config, asm: Option<Message>, part: seq<byte>): Option<ProcessorError>
    requires |part| >= 2
  {
    ValidateBasic(part[0], part[1], cfg.server, asm.None?)
  }

  function AfterByte(cfg: Config, asm: Option<Message>, part: seq<byte>): FeedResult {
    if |part| < 2 then Next(Rx(asm, part), None)
    else if |part| == 2 && BasicCheck(cfg, asm, part).Some? then Failed(BasicCheck(cfg, asm, part).value)
    else if |part| < HeaderLen(part[1]) then Next(Rx(asm, part), None)
    else if |part| == HeaderLen(part[1]) then AfterHeader(cfg, asm, part)
    else AfterPayload(asm, part)
  }

  function Feed(cfg: Config, rx: Rx, b: byte): FeedResult {
    AfterByte(cfg, rx.asm, rx.part + [b])
  }

  // ---------- up to the next message ----------

  datatype Outcome = Fail(error: ProcessorError) | More(rx: Rx) | Got(rx: Rx, message: Message, rest: seq<byte>)

  function Resume(cfg: Config, r: FeedResult, rest: seq<byte>): Outcome
    decreases |rest|, 1
  {
    match r
    case Failed(e) => Fail(e)
    case Next(rx, None) => ConsumeSpec(cfg, rx, rest)
    case Next(rx, Some(m)) => Got(rx, m, rest)
  }

  /** Feed octets until one of them completes a message or fails. */
  function ConsumeSpec(cfg: Config, rx: Rx, bs: seq<byte>): Outcome
    decreases |bs|, 0
  {
    if bs == [] then More(rx) else Resume(cfg, Feed(cfg, rx, bs[0]), bs[1..])
  }

  /** Feeding the first one or two octets of a frame. */
  lemma BasicUnfolds(cfg: Config, rx: Rx, bs: seq<byte>, n: nat)
    requires 0 < n <= |bs| && |rx.part| + n <= 2
    ensures var p := rx.part + bs[..n];
            ConsumeSpec(cfg, rx, bs) ==
            if |p| < 2 then ConsumeSpec(cfg, Rx(rx.asm, p), bs[n..])
            else if BasicCheck(cfg, rx.asm, p).Some? then Fail(BasicCheck(cfg, rx.asm, p).value)
            else if |p| < HeaderLen(p[1]) then ConsumeSpec(cfg, Rx(rx.asm, p), bs[n..])
            else Resume(cfg, AfterHeader(cfg, rx.asm, p), bs[n..])
  {
    hide AfterHeader, AfterPayload, BasicCheck, HeaderLen;
    assert bs[..1] == [bs[0]];
    var one := rx.part + [bs[0]];
    assert ConsumeSpec(cfg, rx, bs) == Resume(cfg, AfterByte(cfg, rx.asm, one), bs[1..]);
    if n == 2 {
      assert one == [bs[0]] && bs[1..][0] == bs[1] && bs[1..][1..] == bs[2..];
      assert one + [bs[1]] == rx.part + bs[..2];
      assert ConsumeSpec(cfg, Rx(rx.asm, one), bs[1..]) == Resume(cfg, AfterByte(cfg, rx.asm, one + [bs[1]]), bs[2..]);
    }
  }

  lemma {:induction false} HeaderInBulk(cfg: Config, asm: Option<Message>, part: seq<byte>, bs: seq<byte>, k: nat)
    requires |part| >= 2 && 0 < k <= |bs| && |part| + k <= HeaderLen(part[1])
    ensures var p := part + bs[..k];
            ConsumeSpec(cfg, Rx(asm, part), bs) ==
            if |p| < HeaderLen(p[1]) then ConsumeSpec(cfg, Rx(asm, p), bs[k..])
            else Resume(cfg, AfterHeader(cfg, asm, p), bs[k..])
    decreases k
  {
    hide AfterHeader, AfterPayload, BasicCheck, HeaderLen;
    var one := part + [bs[0]];
    assert bs[..1] == [bs[0]];
    assert one[1] == part[1];
    if k > 1 {
      HeaderInBulk(cfg, asm, one, bs[1..], k - 1);
      assert one + bs[1..][..k - 1] == part + bs[..k];
      assert bs[1..][k - 1..] == bs[k..];
    }
  }

  lemma NoBodyYet(asm: Option<Message>, part: seq<byte>)
    requires HeaderRead(part) && |part| == HeaderLen(part[1])
    ensures Raw(part) == [] && Body(part) == [] && Mask.Rotate(FrameKey(part), 0) == FrameKey(part)
    ensures Prior(asm) + Body(part) == Prior(asm)
    ensures Utf8.Run(Utf8.START, []) == Utf8.START
  {
  }

  /** The next payload octets of the frame, unmasked. */
  function Unmasked(part: seq<byte>, more: seq<byte>): (r: seq<byte>)
    requires HeaderRead(part)
    ensures |r| == |more|
  {
    if GetMasked(part[1]) then Mask.Masked(Mask.Rotate(FrameKey(part), |Raw(part)|), more) else more
  }

  lemma BodyGrows(part: seq<byte>, more: seq<byte>)
    requires HeaderRead(part)
    ensures HeaderRead(part + more) && Ext(part + more) == Ext(part) && Raw(part + more) == Raw(part) + more
    ensures Body(part + more) == Body(part) + Unmasked(part, more)
  {
    assert Ext(part + more) == Ext(part);
    assert Raw(part + more) == Raw(part) + more;
    Mask.MaskedConcat(FrameKey(part), Raw(part), more);
  }

  lemma RejectedStays(asm: Option<Message>, part: seq<byte>, more: seq<byte>)
    requires HeaderRead(part) && TextRejected(Current(asm, part))
    ensures HeaderRead(part + more) && TextRejected(Current(asm, part + more))
  {
    hide Body, Utf8.Run, HeaderLen, GetOpcode, Unmasked;
    BodyGrows(part, more);
    var tail := Body(part + more)[|Body(part)|..];
    var before, after := Current(asm, part).payload, Current(asm, part + more).payload;
    assert !IsControl(TEXT);
    assert after == before + tail;
    Utf8.RunConcat(Utf8.START, before, tail);
    Utf8.RejectIsAbsorbing(Utf8.Run(Utf8.START, before), tail);
  }

  lemma {:induction false} PayloadInBulk(cfg: Config, asm: Option<Message>, part: seq<byte>, bs: seq<byte>, k: nat)
    requires HeaderRead(part) && 0 < k <= |bs| && |part| + k <= HeaderLen(part[1]) + FrameSize(part)
    ensures var p := part + bs[..k];
            && HeaderRead(p)
            && ConsumeSpec(cfg, Rx(asm, part), bs) ==
               if TextRejected(Current(asm, p)) then Fail(InvalidUtf8)
               else if |part| + k < HeaderLen(part[1]) + FrameSize(part) then ConsumeSpec(cfg, Rx(asm, p), bs[k..])
               else Resume(cfg, Complete(asm, p), bs[k..])
    decreases k
  {
    hide Current, Body, Complete, TextRejected;
    var one := part + [bs[0]];
    assert bs[..1] == [bs[0]];
    BodyGrows(part, [bs[0]]);
    BodyGrows(part, bs[..k]);
    if k > 1 {
      PayloadInBulk(cfg, asm, one, bs[1..], k - 1);
      assert one + bs[1..][..k - 1] == part + bs[..k];
      assert bs[1..][k - 1..] == bs[k..];
      if TextRejected(Current(asm, one)) {
        RejectedStays(asm, one, bs[1..][..k - 1]);
      }
    }
  }

  // ---------- the drain loop ----------

  /** How reading ends: with the first error, or waiting for more octets. */
  datatype End = Stopped(error: ProcessorError) | Reading(rx: Rx)

  datatype Drained = Drained(out: seq<Message>, end: End)

  /** All messages of a stream of octets, up to the first error. */
  function Drain(cfg: Config, rx: Rx, bs: seq<byte>): Drained
    decreases |bs|
  {
    if bs == [] then Drained([], Reading(rx))
    else
      match Feed(cfg, rx, bs[0])
      case Failed(e) => Drained([], Stopped(e))
      case Next(next, None) => Drain(cfg, next, bs[1..])
      case Next(next, Some(m)) => Prepend([m], Drain(cfg, next, bs[1..]))
  }

  function Prepend(out: seq<Message>, d: Drained): Drained {
    Drained(out + d.out, d.end)
  }

  /** Go on with the next chunk unless reading has stopped. */
  function Continue(cfg: Config, d: Drained, bs: seq<byte>): Drained {
    if d.end.Stopped? then d else Prepend(d.out, Drain(cfg, d.end.rx, bs))
  }

  /** One call of the read handler after the other. */
  function DrainChunks(cfg: Config, rx: Rx, chunks: seq<seq<byte>>): Drained
    decreases |chunks|
  {
    if chunks == [] then Drained([], Reading(rx))
    else
      var d := Drain(cfg, rx, chunks[0]);
      if d.end.Stopped? then d else Prepend(d.out, DrainChunks(cfg, d.end.rx, chunks[1..]))
  }

  lemma {:induction false} DrainConcat(cfg: Config, rx: Rx, a: seq<byte>, b: seq<byte>)
    ensures Drain(cfg, rx, a + b) == Continue(cfg, Drain(cfg, rx, a), b)
    decreases |a|
  {
    hide Feed;
    if a == [] {
      assert a + b == b;
    } else {
      assert (a + b)[0] == a[0] && (a + b)[1..] == a[1..] + b;
      match Feed(cfg, rx, a[0])
      case Failed(_) =>
      case Next(next, _) => DrainConcat(cfg, next, a[1..], b);
    }
  }

  /** Chunk by chunk or all at once: the same messages and the same first error. */
  lemma {:induction false} DrainOfChunks(cfg: Config, rx: Rx, chunks: seq<seq<byte>>)
    ensures DrainChunks(cfg, rx, chunks) == Drain(cfg, rx, Flatten(chunks))
    decreases |chunks|
  {
    hide Feed;
    if chunks != [] {
      DrainConcat(cfg, rx, chunks[0], Flatten(chunks[1..]));
      var d := Drain(cfg, rx, chunks[0]);
      if d.end.Reading? { DrainOfChunks(cfg, d.end.rx, chunks[1..]); }
    }
  }

  /** However a stream is cut into chunks, well-formed or not, the receiver makes the same of it. */
  lemma ChunkInvariance(cfg: Config, rx: Rx, a: seq<seq<byte>>, b: seq<seq<byte>>)
    requires Flatten(a) == Flatten(b)
    ensures DrainChunks(cfg, rx, a) == DrainChunks(cfg, rx, b)
  {
    DrainOfChunks(cfg, rx, a);
    DrainOfChunks(cfg, rx, b);
  }

  lemma {:induction false} DrainByMessages(cfg: Config, rx: Rx, bs: seq<byte>)
    ensures Drain(cfg, rx, bs) ==
            match ConsumeSpec(cfg, rx, bs)
            case Fail(e) => Drained([], Stopped(e))
            case More(next) => Drained([], Reading(next))
            case Got(next, m, rest) => Prepend([m], Drain(cfg, next, rest))
    decreases |bs|
  {
    hide Feed;
    if bs != [] {
      match Feed(cfg, rx, bs[0])
      case Failed(_) =>
      case Next(next, None) => DrainByMessages(cfg, next, bs[1..]);
      case Next(_, Some(_)) =>
    }
  }

  lemma NothingToDrain(cfg: Config, rx: Rx)
    ensures Drain(cfg, rx, []) == Drained([], Reading(rx))
  {
  }
}
