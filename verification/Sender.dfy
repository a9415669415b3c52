/** The sending half of the hybi13 processor: data, control and close frames ready for the transport. */
module Sender {
  import opened Bytes
  import opened Frame
  import opened Wire
  import Close
  import Mask
  import Utf8

  /** A prepared message: the opcode, the frame header and the payload as it goes on the wire. */
  datatype Prepared = Prepared(opcode: byte, header: seq<byte>, payload: seq<byte>)

  datatype Result<+T> = Ok(value: T) | Err(error: ProcessorError)

  function Role(server: bool, key: seq<byte>): Option<seq<byte>> { if server then None else Some(key) }

  /** The frame a prepared message carries. */
  function Carrying(f: WireFrame): Prepared
    requires Sendable(f)
  {
    Prepared(f.op, FrameHeader(f), MaskedPayload(f))
  }

  function WireOctets(p: Prepared): seq<byte> { p.header + p.payload }

  /** Mask into a fresh buffer if the sender is a client, copy otherwise. */
  method CopyPayload(server: bool, payload: seq<byte>, key: seq<byte>) returns (o: seq<byte>)
    requires |key| == 4
    ensures o == if server then payload else Mask.Masked(key, payload)
  {
    if server {
      o := payload;
    } else {
      var input := new byte[|payload|](i requires 0 <= i < |payload| => payload[i]);
      var output := new byte[|payload|];
      Mask.ByteMask(input, output, key, 0);
      assert output[..] == output[..input.Length] && input[..] == payload;
      o := output[..];
    }
  }

  /** What preparing a data message gives. */
  ghost function DataResult(server: bool, op: byte, fin: bool, payload: seq<byte>, key: seq<byte>): Result<Prepared>
    requires op <= 0xF && |payload| < TWO_64 && |key| == 4
  {
    if IsControl(op) then Err(InvalidOpcode)
    else if op == TEXT && !Utf8.WellFormed(payload) then Err(InvalidPayload)
    else Ok(Carrying(WireFrame(op, fin, Role(server, key), payload)))
  }

  /** What preparing a ping, pong or close gives. */
  function ControlResult(server: bool, op: byte, payload: seq<byte>, key: seq<byte>): Result<Prepared>
    requires op <= 0xF && |key| == 4
  {
    if !IsControl(op) then Err(InvalidOpcode)
    else if |payload| > PAYLOAD_SIZE_BASIC then Err(ControlTooBig)
    else Ok(Carrying(WireFrame(op, true, Role(server, key), payload)))
  }

  method PrepareDataFrame(server: bool, op: byte, fin: bool, payload: seq<byte>, key: seq<byte>)
    returns (r: Result<Prepared>)
    requires op <= 0xF && |payload| < TWO_64 && |key| == 4
    ensures r == DataResult(server, op, fin, payload, key)
  {
    if IsControl(op) {
      return Err(InvalidOpcode);
    }
    if op == TEXT {
      var valid := Utf8.Validate(payload);
      if !valid {
        return Err(InvalidPayload);
      }
    }
    var masked := !server;
    var o := CopyPayload(server, payload, key);
    var b0, b1 := FirstByte(op, fin, false, false, false), SecondByte(|o|, masked);
    DecodeOfEncode(op, fin, Role(server, key), |o|);
    var e := ExtendedHeader(|o|, Role(server, key));
    r := Ok(Prepared(op, PrepareHeader(b0, b1, e), o));
  }

  method PrepareControl(server: bool, op: byte, payload: seq<byte>, key: seq<byte>) returns (r: Result<Prepared>)
    requires op <= 0xF && |key| == 4
    ensures r == ControlResult(server, op, payload, key)
  {
    if !IsControl(op) {
      return Err(InvalidOpcode);
    }
    if |payload| > PAYLOAD_SIZE_BASIC {
      return Err(ControlTooBig);
    }
    var masked := !server;
    var b0, b1 := FirstByte(op, true, false, false, false), SecondByte(|payload|, masked);
    DecodeOfEncode(op, true, Role(server, key), |payload|);
    var o := CopyPayload(server, payload, key);
    r := Ok(Prepared(op, PrepareHeader(b0, b1, ExtendedHeader(|payload|, Role(server, key))), o));
  }

  /** The payload of a close frame, or why there is none. */
  function ClosePayload(code: Close.Code, reason: seq<byte>): Result<seq<byte>> {
    if Close.Reserved(code) then Err(ReservedCloseCode)
    else if Close.Invalid(code) && code != Close.NO_STATUS then Err(InvalidCloseCode)
    else if code == Close.NO_STATUS && |reason| > 0 then Err(ReasonRequiresCode)
    else if |reason| > PAYLOAD_SIZE_BASIC - 2 then Err(ControlTooBig)
    else Ok(if code == Close.NO_STATUS then [] else Close.CodeOctets(code) + reason)
  }

  method PrepareClose(server: bool, code: Close.Code, reason: seq<byte>, key: seq<byte>) returns (r: Result<Prepared>)
    requires |key| == 4
    ensures match ClosePayload(code, reason)
            case Err(e) => r == Err(e)
            case Ok(payload) =>
              |payload| <= PAYLOAD_SIZE_BASIC && r == Ok(Carrying(WireFrame(CLOSE, true, Role(server, key), payload)))
    ensures r.Ok? <==> (code == 1005 && reason == []) || (Close.Usable(code) && |reason| <= 123)
    ensures code == 1005 && reason == [] ==> r == Ok(Carrying(WireFrame(CLOSE, true, Role(server, key), [])))
    ensures Close.Usable(code) && |reason| <= 123 ==>
              r == Ok(Carrying(WireFrame(CLOSE, true, Role(server, key), Close.CodeOctets(code) + reason)))
  {
    if Close.Reserved(code) {
      return Err(ReservedCloseCode);
    }
    if Close.Invalid(code) && code != Close.NO_STATUS {
      return Err(InvalidCloseCode);
    }
    if code == Close.NO_STATUS && |reason| > 0 {
      return Err(ReasonRequiresCode);
    }
    if |reason| > PAYLOAD_SIZE_BASIC - 2 {
      return Err(ControlTooBig);
    }
    var payload := [];
    if code != Close.NO_STATUS {
      payload := Close.CodeOctets(code) + reason;
    }
    r := PrepareControl(server, CLOSE, payload, key);
  }
}
