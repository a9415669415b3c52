/** The receiving half of the hybi13 processor: a state machine that resumes at any octet boundary. */
module Receiver {
  import opened Bytes
  import opened Frame
  import opened Stream
  import Mask
  import Utf8

  datatype State = HeaderBasic | HeaderExtended | Application | Ready

  /** A message buffer together with the prepared key of the frame being read into it. */
  datatype Metadata = Metadata(opcode: byte, payload: seq<byte>, preparedKey: Mask.Word)

  datatype Channel = DataChannel | ControlChannel

  const NO_KEY: Mask.Word := [0, 0, 0, 0, 0, 0, 0, 0]

  class Processor {
    const server: bool
    const maxMessageSize: nat
    const little: bool
    var state: State
    var bytesNeeded: nat
    var cursor: nat
    var b0: byte
    var b1: byte
    const ext: array<byte>
    var dataMsg: Option<Metadata>
    var controlMsg: Option<Metadata>
    var current: Channel
    const dataUtf8: Utf8.Validator
    ghost var rx: Rx
    ghost var finished: Option<Message>

    constructor (server: bool, maxMessageSize: nat, little: bool)
      ensures Valid() && rx == IDLE && state != Ready
      ensures this.server == server && this.maxMessageSize == maxMessageSize && this.little == little
      ensures fresh(ext) && fresh(dataUtf8)
    {
      this.server, this.maxMessageSize, this.little := server, maxMessageSize, little;
      state, bytesNeeded, cursor, b0, b1 := HeaderBasic, BASIC_HEADER_LENGTH, 0, 0, 0;
      ext := new byte[MAX_EXTENDED_HEADER_LENGTH](i => 0);
      dataMsg, controlMsg, current := None, None, DataChannel;
      dataUtf8 := new Utf8.Validator();
      rx, finished := IDLE, None;
    }

    ghost function Cfg(): Config { Config(server, maxMessageSize) }

    // ---------- how the fields represent rx ----------

    /** The data buffer holds the message assembled so far. */
    ghost predicate Stored()
      reads this, dataUtf8
    {
      && dataUtf8.Valid()
      && dataMsg.Some? == rx.asm.Some?
      && (rx.asm.Some? ==>
            && dataMsg.value.opcode == rx.asm.value.opcode && dataMsg.value.payload == rx.asm.value.payload
            && !IsControl(rx.asm.value.opcode)
            && (rx.asm.value.opcode == TEXT ==> dataUtf8.Now() == Utf8.Run(Utf8.START, rx.asm.value.payload)))
    }

    ghost predicate AtBasic()
      reads this, ext, dataUtf8
    {
      && Stored() && finished.None?
      && |rx.part| <= 2 && bytesNeeded == 2 - |rx.part|
      && (|rx.part| > 0 ==> b0 == rx.part[0])
      && (|rx.part| > 1 ==> b1 == rx.part[1])
    }

    ghost predicate HeaderAccepted()
      reads this
    {
      |rx.part| >= 2 && b0 == rx.part[0] && b1 == rx.part[1] && BasicCheck(Cfg(), rx.asm, rx.part).None?
    }

    ghost predicate AtExtended()
      reads this, ext, dataUtf8
    {
      && Stored() && finished.None? && HeaderAccepted()
      && ext.Length == MAX_EXTENDED_HEADER_LENGTH
      && |rx.part| + bytesNeeded == HeaderLen(b1) && cursor == |rx.part| - 2
      && ext[..cursor] == rx.part[2..]
    }

    ghost predicate KeyReady(m: Metadata)
      requires HeaderRead(rx.part)
      reads this
    {
      GetMasked(b1) ==>
        && Mask.Periodic(m.preparedKey)
        && Mask.KeyOctets(m.preparedKey, little) == Mask.Rotate(FrameKey(rx.part), |Raw(rx.part)|)
    }

    ghost predicate AtPayload()
      reads this, ext, dataUtf8
    {
      && dataUtf8.Valid() && finished.None? && HeaderAccepted() && HeaderRead(rx.part)
      && |rx.part| + bytesNeeded == HeaderLen(b1) + FrameSize(rx.part)
      && var m := Current(rx.asm, rx.part);
      && if IsControl(GetOpcode(b0)) then
           && Stored() && current == ControlChannel && controlMsg.Some?
           && controlMsg.value.opcode == m.opcode && controlMsg.value.payload == m.payload
           && KeyReady(controlMsg.value)
         else
           && current == DataChannel && dataMsg.Some?
           && dataMsg.value.opcode == m.opcode && dataMsg.value.payload == m.payload
           && KeyReady(dataMsg.value)
           && !IsControl(m.opcode)
           && (m.opcode == TEXT ==> dataUtf8.Now() == Utf8.Run(Utf8.START, m.payload))
    }

    ghost predicate AtReady()
      reads this, ext, dataUtf8
    {
      && dataUtf8.Valid() && finished.Some? && rx.part == []
      && if IsControl(finished.value.opcode) then
           && Stored() && current == ControlChannel && controlMsg.Some?
           && Message(controlMsg.value.opcode, controlMsg.value.payload) == finished.value
         else
           && rx.asm.None? && current == DataChannel && dataMsg.Some?
           && Message(dataMsg.value.opcode, dataMsg.value.payload) == finished.value
    }

    ghost predicate Inv()
      reads this, ext, dataUtf8
    {
      && ext.Length == MAX_EXTENDED_HEADER_LENGTH
      && match state
         case HeaderBasic => AtBasic()
         case HeaderExtended => AtExtended()
         case Application => AtPayload()
         case Ready => AtReady()
    }

    /** Between calls there is always something left to wait for, or a message to hand out. */
    ghost predicate Valid()
      reads this, ext, dataUtf8
    {
      Inv() && (state != Ready ==> bytesNeeded > 0)
    }

    /** What the reference machine makes of the octets ahead, seen from the present state. */
    ghost function Ahead(rest: seq<byte>): Outcome
      requires Inv()
      reads this, ext, dataUtf8
    {
      match state
      case HeaderBasic => ConsumeSpec(Cfg(), rx, rest)
      case HeaderExtended =>
        if bytesNeeded > 0 then ConsumeSpec(Cfg(), rx, rest)
        else Resume(Cfg(), AfterHeader(Cfg(), rx.asm, rx.part), rest)
      case Application =>
        if bytesNeeded > 0 then ConsumeSpec(Cfg(), rx, rest)
        else Resume(Cfg(), Complete(rx.asm, rx.part), rest)
      case Ready => Got(rx, finished.value, rest)
    }

    // ---------- the steps ----------

    method ResetHeaders()
      modifies this`state, this`bytesNeeded, this`b0, this`b1, ext
      requires ext.Length == MAX_EXTENDED_HEADER_LENGTH
      ensures state == HeaderBasic && bytesNeeded == BASIC_HEADER_LENGTH
      ensures b0 == b1 == 0 && ext[..] == Zeros(MAX_EXTENDED_HEADER_LENGTH)
    {
      state, bytesNeeded, b0, b1 := HeaderBasic, BASIC_HEADER_LENGTH, 0, 0;
      forall i | 0 <= i < ext.Length { ext[i] := 0; }
    }

    method CopyBasicHeaderBytes(buf: array<byte>, at: nat, len: nat) returns (n: nat)
      requires state == HeaderBasic && AtBasic() && at + len <= buf.Length
      requires buf != ext
      modifies this`b0, this`b1, this`bytesNeeded, this`rx
      ensures state == HeaderBasic && AtBasic()
      ensures n <= len && bytesNeeded == old(bytesNeeded) - n && (bytesNeeded == 0 || n == len)
      ensures rx == Rx(old(rx.asm), old(rx.part) + buf[at..at + n])
    {
      if len == 0 || bytesNeeded == 0 {
        assert rx.part + buf[at..at] == rx.part;
        return 0;
      }
      if len > 1 {
        if bytesNeeded == 2 {
          b0, b1 := buf[at], buf[at + 1];
          bytesNeeded := bytesNeeded - 2;
          n := 2;
        } else {
          b1 := buf[at];
          bytesNeeded := bytesNeeded - 1;
          n := 1;
        }
      } else {
        if bytesNeeded == 2 {
          b0 := buf[at];
        } else {
          b1 := buf[at];
        }
        bytesNeeded := bytesNeeded - 1;
        n := 1;
      }
      rx := Rx(rx.asm, rx.part + buf[at..at + n]);
    }

    method StepBasic(buf: array<byte>, at: nat, len: nat) returns (n: nat, ec: Option<ProcessorError>)
      requires Inv() && state == HeaderBasic && bytesNeeded > 0 && 0 < len && at + len <= buf.Length && buf != ext
      modifies this
      ensures 0 < n <= len
      ensures ec.Some? ==> old(Ahead(buf[at..at + len])) == Fail(ec.value)
      ensures ec.None? ==> Inv() && state != Ready && Ahead(buf[at + n..at + len]) == old(Ahead(buf[at..at + len]))
      ensures ec.None? && state == HeaderBasic ==> bytesNeeded > 0
    {
      hide ConsumeSpec, Resume, AfterHeader, Complete, AtPayload, AtReady, ValidateBasic, HeaderLen, Utf8.Run;
      ghost var input, before := buf[at..at + len], rx;
      ec := None;
      n := CopyBasicHeaderBytes(buf, at, len);
      BasicUnfolds(Cfg(), before, input, n);
      SliceSplits(buf, at, len, n);
      if bytesNeeded > 0 {
        return;
      }
      ec := ValidateBasic(b0, b1, server, dataMsg.None?);
      if ec.Some? {
        return;
      }
      state := HeaderExtended;
      cursor := 0;
      bytesNeeded := HeaderLen(b1) - BASIC_HEADER_LENGTH;
      assert ext[..0] == rx.part[2..];
    }

    method CopyExtendedHeaderBytes(buf: array<byte>, at: nat, len: nat) returns (n: nat)
      requires Inv() && state == HeaderExtended && at + len <= buf.Length && buf != ext
      modifies this`cursor, this`bytesNeeded, this`rx, ext
      ensures Inv() && state == HeaderExtended
      ensures n <= len && bytesNeeded == old(bytesNeeded) - n && (bytesNeeded == 0 || n == len)
      ensures rx == Rx(old(rx.asm), old(rx.part) + buf[at..at + n])
    {
      hide ValidateBasic, Utf8.Run, HeaderLen;
      n := if bytesNeeded < len then bytesNeeded else len;
      forall i | 0 <= i < n {
        ext[cursor + i] := buf[at + i];
      }
      assert ext[..cursor + n] == old(ext[..cursor]) + buf[at..at + n];
      cursor := cursor + n;
      bytesNeeded := bytesNeeded - n;
      rx := Rx(rx.asm, rx.part + buf[at..at + n]);
    }

    /** Set up the metadata of the message the frame belongs to, within the size limit. */
    method SelectMessage(op: byte, size: nat, prepared: Mask.Word) returns (ec: Option<ProcessorError>)
      requires Stored()
      modifies this`controlMsg, this`dataMsg, this`current, dataUtf8
      ensures ec == SizeCheck(Cfg(), rx.asm, op, size)
      ensures ec.None? && IsControl(op) ==>
                Stored() && current == ControlChannel && controlMsg == Some(Metadata(op, [], prepared))
      ensures ec.None? && !IsControl(op) ==>
                && dataUtf8.Valid() && current == DataChannel
                && dataMsg == Some(Metadata(if rx.asm.Some? then rx.asm.value.opcode else op, Prior(rx.asm), prepared))
                && dataUtf8.Now() == if rx.asm.Some? then old(dataUtf8.Now()) else Utf8.START
    {
      hide Utf8.Run;
      if IsControl(op) {
        controlMsg := Some(Metadata(op, [], prepared));
        current := ControlChannel;
      } else {
        if dataMsg.None? {
          if size > maxMessageSize {
            return Some(MessageTooBig);
          }
          dataMsg := Some(Metadata(op, [], prepared));
          dataUtf8.Reset();
        } else {
          if (|dataMsg.value.payload| + size) % TWO_64 > maxMessageSize {
            return Some(MessageTooBig);
          }
          dataMsg := Some(dataMsg.value.(preparedKey := prepared));
        }
        current := DataChannel;
      }
      ec := None;
    }

    /** The extended header is complete: check it and get ready for the payload. */
    method StartPayload() returns (ec: Option<ProcessorError>)
      requires Inv() && state == HeaderExtended && bytesNeeded == 0
      modifies this, dataUtf8
      ensures ec == HeaderCheck(Cfg(), old(rx.asm), old(rx.part))
      ensures ec.None? ==> rx == old(rx) && Inv() && state == Application && bytesNeeded == FrameSize(rx.part)
    {
      hide ValidateBasic, ValidateExtended, PayloadSize, MaskingKey, Utf8.Run, HeaderLen, GetMasked,
        Mask.PrepareMaskingKey,
        Mask.KeyOctets, Mask.Periodic, Mask.Masked, Mask.Rotate, SizeCheck;
      OnlyHeaderOctetsMatter(b1, ext[..]);
      assert ext[..][..cursor] == ext[..cursor] == Ext(rx.part);
      ec := ValidateExtended(b1, ext[..]);
      if ec.Some? {
        return;
      }
      state := Application;
      bytesNeeded := PayloadSize(b1, ext[..]);
      var key := MaskingKey(b1, ext[..]);
      var prepared := Mask.PrepareMaskingKey(key, little);
      Mask.PreparedKeyIsPeriodic(key, little);
      NoBodyYet(rx.asm, rx.part);
      ec := SelectMessage(GetOpcode(b0), bytesNeeded, prepared);
    }

    /** The metadata m_current_msg points to. */
    function CurrentMetadata(): Metadata
      requires if current == ControlChannel then controlMsg.Some? else dataMsg.Some?
      reads this
    {
      if current == ControlChannel then controlMsg.value else dataMsg.value
    }

    method SetCurrentMetadata(m: Metadata)
      modifies this`controlMsg, this`dataMsg
      ensures current == ControlChannel ==> controlMsg == Some(m) && dataMsg == old(dataMsg)
      ensures current == DataChannel ==> dataMsg == Some(m) && controlMsg == old(controlMsg)
    {
      if current == ControlChannel { controlMsg := Some(m); } else { dataMsg := Some(m); }
    }

    /** Unmask the octets in the buffer; returns the metadata with its key moved on. */
    method UnmaskInPlace(buf: array<byte>, at: nat, len: nat, m: Metadata) returns (next: Metadata)
      requires HeaderAccepted() && HeaderRead(rx.part) && KeyReady(m) && at + len <= buf.Length
      modifies buf
      ensures buf[..at] == old(buf[..at]) && buf[at + len..] == old(buf[at + len..])
      ensures buf[at..at + len] == Unmasked(rx.part, old(buf[at..at + len]))
      ensures next.opcode == m.opcode && next.payload == m.payload
      ensures GetMasked(b1) ==>
                && Mask.Periodic(next.preparedKey)
                && Mask.KeyOctets(next.preparedKey, little) == Mask.Rotate(FrameKey(rx.part), |Raw(rx.part)| + len)
    {
      hide ValidateBasic, GetMasked, Mask.KeyOctets, Mask.Periodic, Mask.Masked, Mask.Rotate, Mask.CircshiftPreparedKey;
      next := m;
      if GetMasked(b1) {
        Mask.RotateAdd(FrameKey(rx.part), |Raw(rx.part)|, len);
        var key := Mask.ByteMaskCirc(buf, buf, at, len, m.preparedKey, little);
        next := next.(preparedKey := key);
      }
    }

    /** Unmask in place, append to the message, and validate text. */
    method ProcessPayloadBytes(buf: array<byte>, at: nat, len: nat) returns (n: nat, ec: Option<ProcessorError>)
      requires Inv() && state == Application && 0 < len <= bytesNeeded && at + len <= buf.Length && buf != ext
      modifies this, dataUtf8, buf
      ensures buf[..at] == old(buf[..at]) && buf[at + len..] == old(buf[at + len..])
      ensures ec.Some? ==> n == 0
      ensures var part := old(rx.part) + old(buf[at..at + len]);
              && HeaderRead(part)
              && ec == (if TextRejected(Current(old(rx.asm), part)) then Some(InvalidUtf8) else None)
              && (ec.None? ==> Inv() && state == Application && rx == Rx(old(rx.asm), part)
                               && bytesNeeded == old(bytesNeeded) - len && n == len)
    {
      hide ValidateBasic, ValidateExtended, PayloadSize, Utf8.Run, HeaderLen, GetMasked,
        Mask.KeyOctets, Mask.Periodic, Mask.Rotate, Unmasked, Current;
      ghost var chunk, before := buf[at..at + len], Current(rx.asm, rx.part).payload;
      CurrentGrows(rx.asm, rx.part, chunk);
      var m := UnmaskInPlace(buf, at, len, CurrentMetadata());
      var unmasked := buf[at..at + len];
      m := m.(payload := m.payload + unmasked);
      SetCurrentMetadata(m);
      rx := Rx(rx.asm, rx.part + chunk);
      assert Current(rx.asm, rx.part) == Message(m.opcode, before + unmasked);
      if m.opcode == TEXT {
        Utf8.RunConcat(Utf8.START, before, unmasked);
        var ok := dataUtf8.Decode(unmasked);
        if !ok {
          return 0, Some(InvalidUtf8);
        }
      }
      bytesNeeded := bytesNeeded - len;
      return len, None;
    }

    /** The octets of the extended header, and what follows when it is complete. */
    method StepExtended(buf: array<byte>, at: nat, len: nat) returns (n: nat, ec: Option<ProcessorError>)
      requires Inv() && state == HeaderExtended && (0 < len || bytesNeeded == 0) && at + len <= buf.Length && buf != ext
      modifies this, ext, dataUtf8
      ensures n <= len && (n == 0 ==> state != HeaderExtended || ec.Some?)
      ensures old(bytesNeeded) > 0 && ec.None? ==> n > 0
      ensures ec.Some? ==> old(Ahead(buf[at..at + len])) == Fail(ec.value)
      ensures ec.None? ==>
                && Inv() && ((state == HeaderExtended && bytesNeeded > 0) || state == Application)
                && Ahead(buf[at + n..at + len]) == old(Ahead(buf[at..at + len]))
    {
      hide Stored, AtBasic, AtPayload, AtReady, HeaderLen, ConsumeSpec, Resume, Complete, HeaderCheck;
      ghost var input, before, waiting := buf[at..at + len], rx, bytesNeeded > 0;
      n := CopyExtendedHeaderBytes(buf, at, len);
      SliceSplits(buf, at, len, n);
      assert before.part + [] == before.part;
      if waiting {
        HeaderInBulk(Cfg(), before.asm, before.part, input, n);
      }
      if bytesNeeded > 0 {
        return n, None;
      }
      ec := StartPayload();
      if ec.Some? {
        FailedHeader(Cfg(), before.asm, before.part + buf[at..at + n], buf[at + n..at + len]);
      } else {
        StartedPayload(Cfg(), rx.asm, rx.part, buf[at + n..at + len]);
      }
    }

    /** Text must end on a code point boundary; the test is on the opcode of the last frame. */
    method FinalizeMessage() returns (ec: Option<ProcessorError>)
      requires Inv() && state == Application && bytesNeeded == 0 && GetFin(b0)
      modifies this`state, this`rx, this`finished
      ensures match Complete(old(rx.asm), old(rx.part))
              case Failed(e) => ec == Some(e)
              case Next(next, m) => ec == None && m.Some? && Inv() && state == Ready && rx == next && finished == m
    {
      hide ValidateExtended, PayloadSize, HeaderLen, KeyReady, GetMasked, Body;
      FrameOpcodes(b0, b1, server, rx.asm.None?);
      ghost var m := Current(rx.asm, rx.part);
      if GetOpcode(b0) == TEXT {
        var complete := dataUtf8.Complete();
        if !complete {
          return Some(InvalidUtf8);
        }
      }
      state := Ready;
      finished := Some(m);
      rx := Rx(if IsControl(GetOpcode(b0)) then rx.asm else None, []);
      return None;
    }

    /** The frame is complete but its message is not. */
    method FinishFragment()
      requires Inv() && state == Application && bytesNeeded == 0 && !GetFin(b0)
      modifies this, ext
      ensures Complete(old(rx.asm), old(rx.part)) == Next(rx, None)
      ensures Inv() && state == HeaderBasic && bytesNeeded > 0
    {
      hide ValidateExtended, PayloadSize, HeaderLen, KeyReady, GetMasked, GetFin, Body;
      FrameOpcodes(b0, b1, server, rx.asm.None?);
      rx := Rx(Some(Current(rx.asm, rx.part)), []);
      ResetHeaders();
    }

    /** Payload octets, and the end of the frame. */
    method StepApplication(buf: array<byte>, at: nat, len: nat) returns (n: nat, ec: Option<ProcessorError>)
      requires Inv() && state == Application && (0 < len || bytesNeeded == 0) && at + len <= buf.Length && buf != ext
      modifies this, ext, dataUtf8, buf
      ensures n <= len && (n == 0 && ec.None? ==> state != Application && state != HeaderExtended)
      ensures old(bytesNeeded) > 0 && ec.None? ==> n > 0
      ensures buf[..at] == old(buf[..at])
      ensures ec.Some? ==> old(Ahead(buf[at..at + len])) == Fail(ec.value)
      ensures ec.None? ==>
                && buf[at + n..] == old(buf[at + n..])
                && Inv() && state != HeaderExtended && (state == HeaderBasic ==> bytesNeeded > 0)
                && Ahead(buf[at + n..at + len]) == old(Ahead(buf[at..at + len]))
    {
      hide Stored, AtBasic, AtExtended, AtReady, HeaderLen, ConsumeSpec, Complete, TextRejected, Current,
        ValidateBasic, KeyReady;
      ghost var input, before := buf[at..at + len], rx;
      var bytesToProcess := if bytesNeeded < len then bytesNeeded else len;
      n := 0;
      SliceSplits(buf, at, len, bytesToProcess);
      if bytesToProcess > 0 {
        PayloadInBulk(Cfg(), rx.asm, rx.part, input, bytesToProcess);
        n, ec := ProcessPayloadBytes(buf, at, bytesToProcess);
        if ec.Some? {
          return;
        }
      }
      RestOfSlice(buf[..], old(buf[..]), at, len, n);
      ghost var rest := buf[at + n..at + len];
      if bytesNeeded > 0 {
        return n, None;
      }
      assert old(Ahead(buf[at..at + len])) == Resume(Cfg(), Complete(rx.asm, rx.part), rest);
      if GetFin(b0) {
        ec := FinalizeMessage();
      } else {
        FinishFragment();
        ec := None;
      }
    }

    function Rank(): nat
      reads this
    {
      match state case HeaderExtended => 3 case Application => 2 case HeaderBasic => 1 case Ready => 0
    }

    /** One turn of the consume loop. */
    method Step(buf: array<byte>, at: nat, len: nat) returns (n: nat, ec: Option<ProcessorError>)
      requires Inv() && state != Ready && (0 < len || bytesNeeded == 0) && at + len <= buf.Length && buf != ext
      requires state == HeaderBasic ==> bytesNeeded > 0
      modifies this, ext, dataUtf8, buf
      ensures n <= len
      ensures ec.Some? ==> old(Ahead(buf[at..at + len])) == Fail(ec.value)
      ensures ec.None? ==>
                && buf[at + n..] == old(buf[at + n..])
                && Inv() && (state == HeaderBasic ==> bytesNeeded > 0)
                && (n == 0 ==> old(bytesNeeded) == 0 && Rank() < old(Rank()))
                && Ahead(buf[at + n..at + len]) == old(Ahead(buf[at..at + len]))
    {
      hide AtBasic, AtExtended, AtPayload, AtReady, ConsumeSpec, Resume, AfterHeader, Complete;
      if state == HeaderBasic {
        n, ec := StepBasic(buf, at, len);
      } else if state == HeaderExtended {
        n, ec := StepExtended(buf, at, len);
      } else {
        n, ec := StepApplication(buf, at, len);
      }
    }

    /** Process octets until a message is ready, an error occurs or the octets run out. */
    method Consume(buf: array<byte>, at: nat, len: nat) returns (p: nat, ec: Option<ProcessorError>)
      requires Valid() && state != Ready && at + len <= buf.Length && buf != ext
      modifies this, ext, dataUtf8, buf
      ensures p <= len
      ensures match ConsumeSpec(Cfg(), old(rx), old(buf[at..at + len]))
              case Fail(e) => ec == Some(e)
              case More(next) => ec == None && Valid() && state != Ready && rx == next && p == len
              case Got(next, m, rest) =>
                && ec == None && Valid() && state == Ready && rx == next && finished == Some(m)
                && rest == buf[at + p..at + len] && (len > 0 ==> p > 0)
      ensures ec.None? ==> buf[at + p..] == old(buf[at + p..])
    {
      hide AtBasic, AtExtended, AtPayload, ConsumeSpec, Resume, AfterHeader, Complete;
      p, ec := 0, None;
      ghost var input, start := buf[at..at + len], rx;
      while state != Ready && (p < len || bytesNeeded == 0)
        invariant p <= len && Inv() && ec == None
        invariant p == 0 ==> state != Ready && bytesNeeded > 0
        invariant state == HeaderBasic ==> bytesNeeded > 0
        invariant Ahead(buf[at + p..at + len]) == ConsumeSpec(Cfg(), start, input)
        invariant buf[at + p..] == old(buf[at + p..])
        decreases len - p, Rank()
      {
        var n;
        n, ec := Step(buf, at + p, len - p);
        if ec.Some? {
          return;
        }
        p := p + n;
      }
      ghost var rest := buf[at + p..at + len];
      if state == Ready {
        assert Ahead(rest) == Got(rx, finished.value, rest);
      } else {
        NothingAhead(Cfg(), rx);
        assert rest == [] && Ahead(rest) == More(rx);
      }
    }

    /** Hand out the finished message and get ready for the next frame. */
    method GetMessage() returns (m: Option<Message>)
      requires Valid()
      modifies this, ext
      ensures m == old(finished) && Valid() && state != Ready && rx == old(rx)
      ensures old(state) == Ready ==> m.Some?
    {
      hide Utf8.Run;
      if state != Ready {
        assert finished.None?;
        return None;
      }
      var ret := CurrentMetadata();
      if current == ControlChannel { controlMsg := None; } else { dataMsg := None; }
      if IsControl(ret.opcode) { controlMsg := None; } else { dataMsg := None; }
      m := Some(Message(ret.opcode, ret.payload));
      finished := None;
      ResetHeaders();
    }

    /** The loop of the read handler: consume, hand over each finished message, stop at the first error. */
    method ReadFrames(buf: array<byte>, bytesTransferred: nat)
      returns (delivered: seq<Message>, ec: Option<ProcessorError>)
      requires Valid() && state != Ready && bytesTransferred <= buf.Length && buf != ext
      modifies this, ext, dataUtf8, buf
      ensures var d := Drain(Cfg(), old(rx), old(buf[..bytesTransferred]));
              && delivered == d.out
              && match d.end
                 case Stopped(e) => ec == Some(e)
                 case Reading(next) => ec == None && Valid() && state != Ready && rx == next
    {
      hide AtBasic, AtExtended, AtPayload, AtReady, ConsumeSpec, Drain;
      delivered, ec := [], None;
      var p := 0;
      ghost var input, start := buf[..bytesTransferred], rx;
      while p < bytesTransferred
        invariant p <= bytesTransferred && Valid() && state != Ready && ec == None
        invariant Drain(Cfg(), start, input) == Prepend(delivered, Drain(Cfg(), rx, buf[p..bytesTransferred]))
      {
        DrainByMessages(Cfg(), rx, buf[p..bytesTransferred]);
        var n;
        assert delivered + [] == delivered;
        n, ec := Consume(buf, p, bytesTransferred - p);
        if ec.Some? {
          return;
        }
        p := p + n;
        ghost var ahead := Drain(Cfg(), rx, buf[p..bytesTransferred]);
        if state == Ready {
          var m := GetMessage();
          assert delivered + ([m.value] + ahead.out) == delivered + [m.value] + ahead.out;
          delivered := delivered + [m.value];
        } else {
          NothingToDrain(Cfg(), rx);
          assert buf[p..bytesTransferred] == [];
        }
      }
      NothingToDrain(Cfg(), rx);
      assert buf[p..bytesTransferred] == [] && delivered + [] == delivered;
    }
  }

  lemma NothingAhead(cfg: Config, rx: Rx)
    ensures ConsumeSpec(cfg, rx, []) == More(rx)
  {
  }

  lemma CurrentGrows(asm: Option<Message>, part: seq<byte>, more: seq<byte>)
    requires HeaderRead(part)
    ensures HeaderRead(part + more) && Ext(part + more) == Ext(part) && Raw(part + more) == Raw(part) + more
    ensures var m := Current(asm, part);
            && Current(asm, part + more) == Message(m.opcode, m.payload + Unmasked(part, more))
            && (IsControl(GetOpcode(part[0])) ==> m.opcode != TEXT)
  {
    hide Body, HeaderLen, Unmasked, GetOpcode;
    BodyGrows(part, more);
    assert !IsControl(TEXT);
    assert Prior(asm) + (Body(part) + Unmasked(part, more)) == Prior(asm) + Body(part) + Unmasked(part, more);
  }

  lemma RestOfSlice(now: seq<byte>, was: seq<byte>, at: nat, len: nat, n: nat)
    requires |now| == |was| && at + len <= |now| && n <= len && now[at + n..] == was[at + n..]
    ensures now[at + n..at + len] == was[at..at + len][n..] == was[at + n..at + len]
  {
    assert now[at + n..at + len] == now[at + n..][..len - n];
    assert was[at + n..at + len] == was[at + n..][..len - n];
  }

  lemma FailedHeader(cfg: Config, asm: Option<Message>, part: seq<byte>, rest: seq<byte>)
    requires HeaderRead(part) && HeaderCheck(cfg, asm, part).Some?
    ensures Resume(cfg, AfterHeader(cfg, asm, part), rest) == Fail(HeaderCheck(cfg, asm, part).value)
  {
  }

  lemma StartedPayload(cfg: Config, asm: Option<Message>, part: seq<byte>, rest: seq<byte>)
    requires HeaderRead(part) && HeaderCheck(cfg, asm, part).None?
    ensures Resume(cfg, AfterHeader(cfg, asm, part), rest) ==
            if FrameSize(part) == 0 then Resume(cfg, Complete(asm, part), rest)
            else ConsumeSpec(cfg, Rx(asm, part), rest)
  {
  }

  lemma SliceSplits(buf: array<byte>, at: nat, len: nat, n: nat)
    requires n <= len && at + len <= buf.Length
    ensures buf[at..at + len][..n] == buf[at..at + n]
    ensures buf[at..at + len][n..] == buf[at + n..at + len]
  {
  }
}
