/**
 The frame header (RFC 6455, section 5.2): reading its fields, building it, and the checks a
 receiver makes on it.
 */
module Frame {
  import opened Bytes

  /** Error conditions of the protocol processor. */
  datatype ProcessorError =
    | ControlTooBig | InvalidRsvBit | InvalidOpcode | FragmentedControl | InvalidContinuation
    | MaskingRequired | MaskingForbidden | NonMinimalEncoding | MessageTooBig | InvalidUtf8
    | InvalidPayload | ReservedCloseCode | InvalidCloseCode | ReasonRequiresCode

  const CONTINUATION: byte := 0x0
  const TEXT: byte := 0x1
  const BINARY: byte := 0x2
  const CLOSE: byte := 0x8
  const PING: byte := 0x9
  const PONG: byte := 0xA

  const PAYLOAD_SIZE_BASIC: nat := 125
  const PAYLOAD_SIZE_EXTENDED: nat := 0xFFFF
  const BASIC_HEADER_LENGTH: nat := 2
  const MAX_EXTENDED_HEADER_LENGTH: nat := 12
  const SIZE_CODE_16BIT: byte := 0x7E
  const SIZE_CODE_64BIT: byte := 0x7F

  predicate ReservedOpcode(op: byte) { 0x3 <= op <= 0x7 || 0xB <= op <= 0xF }

  predicate InvalidOpcodeValue(op: byte) { op > 0xF }

  predicate IsControl(op: byte) { op >= 0x8 }

  // ---------- reading ----------

  predicate GetFin(b0: byte) { b0 & 0x80 == 0x80 }

  predicate GetRsv1(b0: byte) { b0 & 0x40 == 0x40 }

  predicate GetRsv2(b0: byte) { b0 & 0x20 == 0x20 }

  predicate GetRsv3(b0: byte) { b0 & 0x10 == 0x10 }

  function GetOpcode(b0: byte): byte { b0 & 0x0F }

  predicate GetMasked(b1: byte) { b1 & 0x80 == 0x80 }

  function GetBasicSize(b1: byte): byte { b1 & 0x7F }

  function MaskingKeyOffset(b1: byte): nat {
    if GetBasicSize(b1) == SIZE_CODE_16BIT then 2 else if GetBasicSize(b1) == SIZE_CODE_64BIT then 8 else 0
  }

  function HeaderLen(b1: byte): (n: nat)
    ensures BASIC_HEADER_LENGTH <= n <= BASIC_HEADER_LENGTH + MAX_EXTENDED_HEADER_LENGTH
  {
    BASIC_HEADER_LENGTH + MaskingKeyOffset(b1) + (if GetMasked(b1) then 4 else 0)
  }

  function PayloadSize(b1: byte, ext: seq<byte>): (n: nat)
    requires |ext| >= HeaderLen(b1) - BASIC_HEADER_LENGTH
    ensures n < TWO_64
  {
    Pow256Widths();
    if GetBasicSize(b1) <= 125 then Val(GetBasicSize(b1))
    else if GetBasicSize(b1) == SIZE_CODE_16BIT then FromBigEndian(ext[..2])
    else FromBigEndian(ext[..8])
  }

  function MaskingKey(b1: byte, ext: seq<byte>): (key: seq<byte>)
    requires |ext| >= HeaderLen(b1) - BASIC_HEADER_LENGTH
    ensures |key| == 4
  {
    if !GetMasked(b1) then [0, 0, 0, 0] else ext[MaskingKeyOffset(b1)..MaskingKeyOffset(b1) + 4]
  }

  // ---------- building ----------

  function FirstByte(op: byte, fin: bool, rsv1: bool, rsv2: bool, rsv3: bool): byte {
    (if fin then 0x80 else 0) | (if rsv1 then 0x40 else 0) | (if rsv2 then 0x20 else 0)
    | (if rsv3 then 0x10 else 0) | (op & 0x0F)
  }

  function SizeCode(size: nat): (code: byte)
    ensures code <= 0x7F
  {
    if size <= PAYLOAD_SIZE_BASIC then
      SmallSize(size);
      ToByte(size)
    else if size <= PAYLOAD_SIZE_EXTENDED then SIZE_CODE_16BIT
    else SIZE_CODE_64BIT
  }

  lemma SmallSize(size: nat)
    requires size <= PAYLOAD_SIZE_BASIC
    ensures ToByte(size) <= 125
  {
    var b := ToByte(size);
    assert b > 125 ==> Val(b) > 125;
  }

  function SecondByte(size: nat, masked: bool): byte {
    (if masked then 0x80 else 0) | SizeCode(size)
  }

  /** copy_payload: the network-order size, without its unneeded leading octets. */
  function SizeOctets(size: nat): seq<byte> {
    var octets := BigEndian(size, 8);
    if size <= PAYLOAD_SIZE_BASIC then octets[8..] else if size <= PAYLOAD_SIZE_EXTENDED then octets[6..] else octets
  }

  /** The twelve octets of an extended header: size, key if there is one, zeros. */
  function ExtendedHeader(size: nat, key: Option<seq<byte>>): (e: seq<byte>)
    requires key.Some? ==> |key.value| == 4
    ensures |e| == MAX_EXTENDED_HEADER_LENGTH
  {
    var used := SizeOctets(size) + (if key.Some? then key.value else []);
    used + seq(MAX_EXTENDED_HEADER_LENGTH - |used|, i => 0)
  }

  /** The octets of a complete header. */
  function PrepareHeader(b0: byte, b1: byte, ext: seq<byte>): seq<byte>
    requires |ext| >= HeaderLen(b1) - BASIC_HEADER_LENGTH
  {
    [b0, b1] + ext[..HeaderLen(b1) - BASIC_HEADER_LENGTH]
  }

  function Header(op: byte, fin: bool, key: Option<seq<byte>>, size: nat): seq<byte>
    requires key.Some? ==> |key.value| == 4
  {
    PrepareHeader(FirstByte(op, fin, false, false, false), SecondByte(size, key.Some?), ExtendedHeader(size, key))
  }

  // ---------- the receiver's checks ----------

  /** newMsg: no data message is being assembled. */
  function ValidateBasic(b0: byte, b1: byte, server: bool, newMsg: bool): Option<ProcessorError> {
    var op := GetOpcode(b0);
    if IsControl(op) && GetBasicSize(b1) > 125 then Some(ControlTooBig)
    else if GetRsv1(b0) then Some(InvalidRsvBit)
    else if GetRsv2(b0) || GetRsv3(b0) then Some(InvalidRsvBit)
    else if ReservedOpcode(op) then Some(InvalidOpcode)
    else if InvalidOpcodeValue(op) then Some(InvalidOpcode)
    else if IsControl(op) && !GetFin(b0) then Some(FragmentedControl)
    else if newMsg && op == CONTINUATION then Some(InvalidContinuation)
    else if !newMsg && !IsControl(op) && op != CONTINUATION then Some(InvalidContinuation)
    else if server && !GetMasked(b1) then Some(MaskingRequired)
    else if !server && GetMasked(b1) then Some(MaskingForbidden)
    else None
  }

  function ValidateExtended(b1: byte, ext: seq<byte>): Option<ProcessorError>
    requires |ext| >= HeaderLen(b1) - BASIC_HEADER_LENGTH
  {
    var size := PayloadSize(b1, ext);
    if GetBasicSize(b1) == SIZE_CODE_16BIT && size <= PAYLOAD_SIZE_BASIC then Some(NonMinimalEncoding)
    else if GetBasicSize(b1) == SIZE_CODE_64BIT && size <= PAYLOAD_SIZE_EXTENDED then Some(NonMinimalEncoding)
    else None
  }

  /** Opcodes that pass the checks are known ones, and only data frames are fragmented. */
  lemma FrameOpcodes(b0: byte, b1: byte, server: bool, newMsg: bool)
    requires ValidateBasic(b0, b1, server, newMsg) == None
    ensures !GetFin(b0) ==> !IsControl(GetOpcode(b0))
    ensures !IsControl(GetOpcode(b0)) ==>
              GetOpcode(b0) == CONTINUATION || GetOpcode(b0) == TEXT || GetOpcode(b0) == BINARY
    ensures GetOpcode(b0) == TEXT || GetOpcode(b0) == BINARY ==> newMsg
    ensures GetOpcode(b0) == CONTINUATION ==> !newMsg
    ensures IsControl(GetOpcode(b0)) ==> GetOpcode(b0) in {CLOSE, PING, PONG}
  {
  }

  /** The fields are read from the part of the twelve-octet buffer that the header fills. */
  lemma OnlyHeaderOctetsMatter(b1: byte, buffer: seq<byte>)
    requires |buffer| == MAX_EXTENDED_HEADER_LENGTH
    ensures var used := buffer[..HeaderLen(b1) - BASIC_HEADER_LENGTH];
            && PayloadSize(b1, buffer) == PayloadSize(b1, used)
            && MaskingKey(b1, buffer) == MaskingKey(b1, used)
            && ValidateExtended(b1, buffer) == ValidateExtended(b1, used)
  {
    hide GetMasked, GetBasicSize, FromBigEndian;
    var used := buffer[..HeaderLen(b1) - BASIC_HEADER_LENGTH];
    var offset := MaskingKeyOffset(b1);
    assert used[..offset] == buffer[..offset];
    if GetMasked(b1) {
      assert used[offset..offset + 4] == buffer[offset..offset + 4];
    }
    SecondByteOfFields(b1);
  }

  // ---------- the codec is a bijection ----------

  lemma FirstByteFields(op: byte, fin: bool, rsv1: bool, rsv2: bool, rsv3: bool)
    requires op <= 0xF
    ensures var b0 := FirstByte(op, fin, rsv1, rsv2, rsv3);
            GetFin(b0) == fin && GetRsv1(b0) == rsv1 && GetRsv2(b0) == rsv2 && GetRsv3(b0) == rsv3
            && GetOpcode(b0) == op
  {
  }

  lemma FirstByteOfFields(b0: byte)
    ensures FirstByte(GetOpcode(b0), GetFin(b0), GetRsv1(b0), GetRsv2(b0), GetRsv3(b0)) == b0
  {
  }

  lemma CodeAndMask(code: byte, masked: bool)
    requires code <= 0x7F
    ensures var b1 := (if masked then 0x80 else 0) | code; GetMasked(b1) == masked && GetBasicSize(b1) == code
  {
  }

  lemma SecondByteOfFields(b1: byte)
    ensures (if GetMasked(b1) then 0x80 else 0) | GetBasicSize(b1) == b1 && GetBasicSize(b1) <= 0x7F
  {
  }

  lemma {:induction false} BigEndianTail(n: nat, k: nat, j: nat)
    requires j <= k
    ensures BigEndian(n, k)[k - j..] == BigEndian(n, j)
  {
    if j > 0 {
      BigEndianTail(n / 256, k - 1, j - 1);
      assert BigEndian(n, k)[k - j..] == BigEndian(n / 256, k - 1)[k - j..] + [ToByte(n % 256)];
    }
  }

  lemma SizeOctetsAre(size: nat)
    ensures SizeOctets(size) ==
            if size <= PAYLOAD_SIZE_BASIC then [] else if size <= PAYLOAD_SIZE_EXTENDED then BigEndian(size, 2)
            else BigEndian(size, 8)
  {
    BigEndianTail(size, 8, 2);
  }

  lemma SecondByteFields(size: nat, masked: bool)
    ensures var b1 := SecondByte(size, masked);
            && GetMasked(b1) == masked && GetBasicSize(b1) == SizeCode(size)
            && MaskingKeyOffset(b1) == |SizeOctets(size)|
  {
    hide GetMasked, GetBasicSize;
    CodeAndMask(SizeCode(size), masked);
    if size <= PAYLOAD_SIZE_BASIC { SmallSize(size); }
  }

  lemma EncodedSize(size: nat, key: Option<seq<byte>>)
    requires size < TWO_64 && (key.Some? ==> |key.value| == 4)
    ensures PayloadSize(SecondByte(size, key.Some?), ExtendedHeader(size, key)) == size
  {
    hide GetMasked, GetBasicSize, SecondByte, FromBigEndian, BigEndian;
    SecondByteFields(size, key.Some?);
    SizeOctetsAre(size);
    Pow256Widths();
    var ext := ExtendedHeader(size, key);
    if size <= PAYLOAD_SIZE_BASIC {
      SmallSize(size);
    } else if size <= PAYLOAD_SIZE_EXTENDED {
      FromBigEndianOfBigEndian(size, 2);
      assert ext[..2] == BigEndian(size, 2);
    } else {
      FromBigEndianOfBigEndian(size, 8);
      assert ext[..8] == BigEndian(size, 8);
    }
  }

  /** Reading a header that was built gives back what it was built from, for every 64-bit size. */
  lemma DecodeOfEncode(op: byte, fin: bool, key: Option<seq<byte>>, size: nat)
    requires op <= 0xF && size < TWO_64 && (key.Some? ==> |key.value| == 4)
    ensures var b0, b1 := FirstByte(op, fin, false, false, false), SecondByte(size, key.Some?);
            var ext := ExtendedHeader(size, key);
            && GetOpcode(b0) == op && GetFin(b0) == fin && !GetRsv1(b0) && !GetRsv2(b0) && !GetRsv3(b0)
            && GetMasked(b1) == key.Some? && GetBasicSize(b1) == SizeCode(size)
            && PayloadSize(b1, ext) == size
            && MaskingKey(b1, ext) == (if key.Some? then key.value else [0, 0, 0, 0])
            && ValidateExtended(b1, ext) == None
            && HeaderLen(b1) == 2 + |SizeOctets(size)| + (if key.Some? then 4 else 0)
  {
    hide GetMasked, GetBasicSize, GetOpcode, GetFin, GetRsv1, GetRsv2, GetRsv3, SecondByte, FirstByte, PayloadSize;
    FirstByteFields(op, fin, false, false, false);
    SecondByteFields(size, key.Some?);
    EncodedSize(size, key);
    SizeOctetsAre(size);
    if size <= PAYLOAD_SIZE_BASIC { SmallSize(size); }
    var ext := ExtendedHeader(size, key);
    assert key.Some? ==> ext[|SizeOctets(size)|..|SizeOctets(size)| + 4] == key.value;
  }

  lemma AcceptedSize(b1: byte, ext: seq<byte>)
    requires |ext| == HeaderLen(b1) - BASIC_HEADER_LENGTH && ValidateExtended(b1, ext) == None
    ensures SizeOctets(PayloadSize(b1, ext)) == ext[..MaskingKeyOffset(b1)]
    ensures SizeCode(PayloadSize(b1, ext)) == GetBasicSize(b1)
  {
    hide GetMasked, GetBasicSize, BigEndian;
    var size, offset := PayloadSize(b1, ext), MaskingKeyOffset(b1);
    SecondByteOfFields(b1);
    SizeOctetsAre(size);
    Pow256Widths();
    if GetBasicSize(b1) <= 125 {
      SmallValue(GetBasicSize(b1));
      ToByteOfVal(GetBasicSize(b1));
    } else {
      BigEndianOfFromBigEndian(ext[..offset]);
      assert GetBasicSize(b1) == SIZE_CODE_16BIT || GetBasicSize(b1) == SIZE_CODE_64BIT;
    }
  }

  lemma SmallValue(b: byte)
    requires b <= 125
    ensures Val(b) <= PAYLOAD_SIZE_BASIC
  {
  }

  lemma KeyPart(b1: byte, ext: seq<byte>)
    requires |ext| == HeaderLen(b1) - BASIC_HEADER_LENGTH
    ensures MaskingKeyOffset(b1) <= |ext| <= MAX_EXTENDED_HEADER_LENGTH
    ensures ext[MaskingKeyOffset(b1)..] == if GetMasked(b1) then MaskingKey(b1, ext) else []
  {
    hide GetMasked, GetBasicSize, MaskingKeyOffset;
  }

  /** The extended header built from a size and a key begins with their octets. */
  lemma BuiltHeader(size: nat, key: Option<seq<byte>>, ext: seq<byte>)
    requires key.Some? ==> |key.value| == 4
    requires SizeOctets(size) + (if key.Some? then key.value else []) == ext
    ensures |ext| <= MAX_EXTENDED_HEADER_LENGTH && ExtendedHeader(size, key)[..|ext|] == ext
  {
    hide BigEndian;
  }

  /** Every header both checks accept is the encoding of its fields: accepted encodings are minimal and unique. */
  lemma EncodeOfDecode(b0: byte, b1: byte, ext: seq<byte>, server: bool, newMsg: bool)
    requires |ext| == HeaderLen(b1) - BASIC_HEADER_LENGTH
    requires ValidateBasic(b0, b1, server, newMsg) == None && ValidateExtended(b1, ext) == None
    ensures var key := if GetMasked(b1) then Some(MaskingKey(b1, ext)) else None;
            Header(GetOpcode(b0), GetFin(b0), key, PayloadSize(b1, ext)) == [b0, b1] + ext
  {
    hide *;
    var key := if GetMasked(b1) then Some(MaskingKey(b1, ext)) else None;
    var size, offset := PayloadSize(b1, ext), MaskingKeyOffset(b1);
    FirstByteOfAccepted(b0, b1, server, newMsg);
    SecondByteOfFields(b1);
    AcceptedSize(b1, ext);
    KeyPart(b1, ext);
    SecondByteIs(b1, size);
    assert ext == ext[..offset] + ext[offset..];
    BuiltHeader(size, key, ext);
    HeaderIs(b0, b1, GetOpcode(b0), GetFin(b0), key, size, ext);
  }

  lemma FirstByteOfAccepted(b0: byte, b1: byte, server: bool, newMsg: bool)
    requires ValidateBasic(b0, b1, server, newMsg) == None
    ensures FirstByte(GetOpcode(b0), GetFin(b0), false, false, false) == b0
  {
    hide GetMasked, GetBasicSize, GetOpcode, GetFin, GetRsv1, GetRsv2, GetRsv3, FirstByte;
    FirstByteOfFields(b0);
  }

  lemma SecondByteIs(b1: byte, size: nat)
    requires SizeCode(size) == GetBasicSize(b1) && (if GetMasked(b1) then 0x80 else 0) | GetBasicSize(b1) == b1
    ensures SecondByte(size, GetMasked(b1)) == b1
  {
    hide GetMasked, GetBasicSize, SizeCode;
  }

  lemma HeaderIs(b0: byte, b1: byte, op: byte, fin: bool, key: Option<seq<byte>>, size: nat, ext: seq<byte>)
    requires key.Some? ==> |key.value| == 4
    requires |ext| == HeaderLen(b1) - BASIC_HEADER_LENGTH && |ext| <= MAX_EXTENDED_HEADER_LENGTH
    requires b0 == FirstByte(op, fin, false, false, false) && b1 == SecondByte(size, key.Some?)
    requires ExtendedHeader(size, key)[..|ext|] == ext
    ensures Header(op, fin, key, size) == [b0, b1] + ext
  {
    hide FirstByte, SecondByte, HeaderLen, ExtendedHeader;
  }

  lemma HeadersAreUnique(a0: byte, a1: byte, a: seq<byte>, b0: byte, b1: byte, b: seq<byte>, server: bool, newMsg: bool)
    requires |a| == HeaderLen(a1) - BASIC_HEADER_LENGTH && |b| == HeaderLen(b1) - BASIC_HEADER_LENGTH
    requires ValidateBasic(a0, a1, server, newMsg) == None && ValidateExtended(a1, a) == None
    requires ValidateBasic(b0, b1, server, newMsg) == None && ValidateExtended(b1, b) == None
    requires GetOpcode(a0) == GetOpcode(b0) && GetFin(a0) == GetFin(b0) && GetMasked(a1) == GetMasked(b1)
    requires PayloadSize(a1, a) == PayloadSize(b1, b) && MaskingKey(a1, a) == MaskingKey(b1, b)
    ensures a0 == b0 && a1 == b1 && a == b
  {
    hide *;
    EncodeOfDecode(a0, a1, a, server, newMsg);
    EncodeOfDecode(b0, b1, b, server, newMsg);
    assert [a0, a1] + a == [b0, b1] + b;
    assert a0 == ([a0, a1] + a)[0] && a1 == ([a0, a1] + a)[1] && a == ([a0, a1] + a)[2..];
    assert b == ([b0, b1] + b)[2..];
  }
}
