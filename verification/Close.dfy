/** Close codes and the payload of close frames (RFC 6455, sections 5.5.1 and 7.4). */
module Close {
  import opened Bytes
  import Utf8

  type Code = n: nat | n < 0x1_0000

  const BLANK: Code := 0
  const NORMAL: Code := 1000
  const PROTOCOL_ERROR: Code := 1002
  const NO_STATUS: Code := 1005
  const ABNORMAL_CLOSE: Code := 1006
  const INVALID_PAYLOAD: Code := 1007
  const POLICY_VIOLATION: Code := 1008
  const MESSAGE_TOO_BIG: Code := 1009
  const INTERNAL_ENDPOINT_ERROR: Code := 1011
  const TLS_HANDSHAKE: Code := 1015

  predicate Reserved(code: Code) { 1016 <= code <= 2999 || code == 1004 }

  predicate Invalid(code: Code) {
    code <= 999 || code >= 5000 || code == NO_STATUS || code == ABNORMAL_CLOSE || code == TLS_HANDSHAKE
  }

  predicate Terminal(code: Code) {
    code in {PROTOCOL_ERROR, INVALID_PAYLOAD, POLICY_VIOLATION, MESSAGE_TOO_BIG, INTERNAL_ENDPOINT_ERROR}
  }

  datatype CloseError = BadCloseCode | InvalidCloseCode | ReservedCloseCode | InvalidUtf8

  datatype Extracted = Extracted(code: Code, error: Option<CloseError>)

  function CodeOctets(code: Code): (c: seq<byte>)
    ensures |c| == 2
  {
    BigEndian(code, 2)
  }

  function ExtractCode(payload: seq<byte>): Extracted {
    if |payload| == 0 then Extracted(NO_STATUS, None)
    else if |payload| == 1 then Extracted(PROTOCOL_ERROR, Some(BadCloseCode))
    else
      Pow256Widths();
      var code: Code := FromBigEndian(payload[..2]);
      Extracted(code, if Reserved(code) then Some(ReservedCloseCode)
                      else if Invalid(code) then Some(InvalidCloseCode) else None)
  }

  function Reason(payload: seq<byte>): seq<byte> {
    if |payload| > 2 then payload[2..] else []
  }

  method ExtractReason(payload: seq<byte>) returns (reason: seq<byte>, ec: Option<CloseError>)
    ensures reason == Reason(payload)
    ensures ec == if Utf8.WellFormed(Reason(payload)) then None else Some(InvalidUtf8)
  {
    reason := Reason(payload);
    var ok := Utf8.Validate(reason);
    ec := if ok then None else Some(InvalidUtf8);
  }

  /** The codes an endpoint may send (RFC 6455, section 7.4), and 1012 to 1014, which were registered later. */
  predicate Usable(code: nat) { 1000 <= code <= 1003 || 1007 <= code <= 1014 || 3000 <= code <= 4999 }

  /** A code and reason written out and read back; which codes are refused, and how. */
  lemma CodeRoundTrip(code: Code, reason: seq<byte>)
    ensures var p := CodeOctets(code) + reason;
            && ExtractCode(p).code == code && Reason(p) == reason
            && (ExtractCode(p).error.None? <==> Usable(code))
            && (ExtractCode(p).error == Some(ReservedCloseCode) <==> code == 1004 || 1016 <= code < 3000)
            && (ExtractCode(p).error == Some(InvalidCloseCode) <==>
                  code < 1000 || code in {1005, 1006, 1015} || 5000 <= code)
  {
    Pow256Widths();
    FromBigEndianOfBigEndian(code, 2);
    assert (CodeOctets(code) + reason)[..2] == CodeOctets(code);
  }

  /** A payload too short for a code: nothing stands for 1005, a single octet for 1002 and an error. */
  lemma ShortPayloads(octet: byte)
    ensures ExtractCode([]) == Extracted(1005, None) && Reason([]) == []
    ensures ExtractCode([octet]) == Extracted(1002, Some(BadCloseCode)) && Reason([octet]) == []
  {
  }

  /** Writing out what was read gives the payload back. */
  lemma PayloadRoundTrip(payload: seq<byte>)
    requires |payload| >= 2
    ensures CodeOctets(ExtractCode(payload).code) + Reason(payload) == payload
  {
    Pow256Widths();
    BigEndianOfFromBigEndian(payload[..2]);
  }
}
