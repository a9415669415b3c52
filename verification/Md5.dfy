/**
 The buffering and padding of MD5 (RFC 1321, sections 3.1 to 3.4): a message arrives in pieces,
 full blocks are compressed as they come and the rest waits in a buffer. The compression of a block
 is an arbitrary function.
 */
module Md5 {
  import opened Bytes

  const TWO_32: nat := 0x1_0000_0000
  const BLOCK: nat := 64

  type Word = n: nat | n < 0x1_0000_0000

  datatype Digest = Digest(a: Word, b: Word, c: Word, d: Word)

  type Compression = (Digest, seq<byte>) -> Digest

  const INIT: Digest := Digest(0x67452301, 0xefcdab89, 0x98badcfe, 0x10325476)

  // ---------- the message in blocks ----------

  /** Compress the full blocks of s, one after the other. */
  function Blocks(h: Compression, d: Digest, s: seq<byte>): Digest
    decreases |s|
  {
    if |s| < BLOCK then d else Blocks(h, h(d, s[..BLOCK]), s[BLOCK..])
  }

  /** What is left after the full blocks. */
  function Rest(s: seq<byte>): (r: seq<byte>)
    ensures |r| == |s| % BLOCK
  {
    if |s| < BLOCK then s else Rest(s[BLOCK..])
  }

  lemma {:induction false} BlocksGoOn(h: Compression, d: Digest, s: seq<byte>, more: seq<byte>)
    ensures Blocks(h, d, s + more) == Blocks(h, Blocks(h, d, s), Rest(s) + more)
    ensures Rest(s + more) == Rest(Rest(s) + more)
    decreases |s|
  {
    if |s| >= BLOCK {
      assert (s + more)[..BLOCK] == s[..BLOCK] && (s + more)[BLOCK..] == s[BLOCK..] + more;
      BlocksGoOn(h, h(d, s[..BLOCK]), s[BLOCK..], more);
    }
  }

  // ---------- padding ----------

  /** The k octets of n, least significant first. */
  function LittleEndian(n: nat, k: nat): (s: seq<byte>)
    ensures |s| == k
  {
    if k == 0 then [] else [ToByte(n % 256)] + LittleEndian(n / 256, k - 1)
  }

  function BitLength(m: seq<byte>): nat { 8 * |m| % TWO_64 }

  /** A one bit, zero bits up to 8 octets short of a block, and the length in bits. */
  function Padding(m: seq<byte>): seq<byte> { [0x80] + Zeros((55 - |m|) % BLOCK) }

  function Padded(m: seq<byte>): seq<byte> { m + Padding(m) + LittleEndian(BitLength(m), 8) }

  /** The digest of a message. */
  function Hash(h: Compression, m: seq<byte>): seq<byte> { DigestOctets(Blocks(h, INIT, Padded(m))) }

  function DigestOctets(d: Digest): seq<byte> {
    LittleEndian(d.a, 4) + LittleEndian(d.b, 4) + LittleEndian(d.c, 4) + LittleEndian(d.d, 4)
  }

  /** Between 1 and 64 octets of padding; with the length the message fills whole blocks. */
  lemma PaddingFillsBlocks(m: seq<byte>)
    ensures 1 <= |Padding(m)| <= BLOCK
    ensures |m + Padding(m)| % BLOCK == 56 && |Padded(m)| % BLOCK == 0
  {
    hide Zeros, LittleEndian;
    var q, r := |m| / BLOCK, |m| % BLOCK;
    var zeros := if r <= 55 then 55 - r else 119 - r;
    SameRemainderAs(55 - |m|, -q - (if r <= 55 then 0 else 1), zeros);
    SameRemainderAs(|m + Padding(m)|, q + (if r <= 55 then 0 else 1), 56);
    SameRemainderAs(|Padded(m)|, q + (if r <= 55 then 1 else 2), 0);
  }

  /** Octet i of a number counts 256^i times. */
  lemma {:induction false} LittleEndianAt(n: nat, k: nat, i: nat)
    requires i < k
    ensures Val(LittleEndian(n, k)[i]) == n / Pow256(i) % 256
    decreases i
  {
    if i > 0 {
      LittleEndianAt(n / 256, k - 1, i - 1);
      assert LittleEndian(n, k)[i] == LittleEndian(n / 256, k - 1)[i - 1];
      DivideTwice(n, Pow256(i - 1));
    }
  }

  lemma DivideTwice(n: nat, p: nat)
    requires p > 0
    ensures n / 256 / p == n / (256 * p)
  {
    var q := n / 256 / p;
    assert n == 256 * (p * q + n / 256 % p) + n % 256;
    assert n == (256 * p) * q + (256 * (n / 256 % p) + n % 256);
    Quotient(n, 256 * p, q, 256 * (n / 256 % p) + n % 256);
  }

  lemma Quotient(n: nat, d: nat, q: nat, r: nat)
    requires n == d * q + r && r < d
    ensures n / d == q
  {
    var e := n / d - q;
    assert d * e == r - n % d;
  }

  /** The message, one bit, zero bits, and its length in bits in eight octets, the least significant first. */
  lemma PaddedOctets(m: seq<byte>, i: nat)
    ensures var p := Padded(m);
            && |m| + 9 <= |p| <= |m| + 72 && m <= p && p[|m|] == 0x80
            && (|m| < i < |p| - 8 ==> p[i] == 0x00)
            && (i < 8 ==> Val(p[|p| - 8 + i]) == 8 * |m| % TWO_64 / Pow256(i) % 256)
  {
    hide LittleEndian, Pow256;
    PaddingFillsBlocks(m);
    var p, q := Padded(m), m + Padding(m);
    assert p == q + LittleEndian(BitLength(m), 8);
    if i < 8 {
      LittleEndianAt(BitLength(m), 8, i);
      assert p[|p| - 8 + i] == LittleEndian(BitLength(m), 8)[i];
    }
  }

  /** The initial digest, in the octets of section 3.3 of RFC 1321. */
  lemma InitialDigest()
    ensures DigestOctets(INIT) == [0x01, 0x23, 0x45, 0x67, 0x89, 0xab, 0xcd, 0xef,
                                   0xfe, 0xdc, 0xba, 0x98, 0x76, 0x54, 0x32, 0x10]
  {
    hide LittleEndian;
    FourOctets(0x01, 0x23, 0x45, 0x67, 0x67452301);
    FourOctets(0x89, 0xab, 0xcd, 0xef, 0xefcdab89);
    FourOctets(0xfe, 0xdc, 0xba, 0x98, 0x98badcfe);
    FourOctets(0x76, 0x54, 0x32, 0x10, 0x10325476);
  }

  lemma FourOctets(a: byte, b: byte, c: byte, d: byte, n: nat)
    requires Val(a) == n % 256 && Val(b) == n / 256 % 256
    requires Val(c) == n / 65536 % 256 && Val(d) == n / 16777216 % 256
    ensures LittleEndian(n, 4) == [a, b, c, d]
  {
    assert Pow256(0) == 1 && Pow256(1) == 256 && Pow256(2) == 65536 && Pow256(3) == 16777216;
    hide LittleEndian, Pow256, Val;
    var s := LittleEndian(n, 4);
    OctetAt(n, 0, a);
    OctetAt(n, 1, b);
    OctetAt(n, 2, c);
    OctetAt(n, 3, d);
    assert s[0] == a && s[1] == b && s[2] == c && s[3] == d;
  }

  lemma OctetAt(n: nat, i: nat, b: byte)
    requires i < 4 && Val(b) == n / Pow256(i) % 256
    ensures LittleEndian(n, 4)[i] == b
  {
    hide LittleEndian, Pow256, Val;
    LittleEndianAt(n, 4, i);
    ToByteOfVal(b);
    ToByteOfVal(LittleEndian(n, 4)[i]);
  }

  lemma SameRemainderAs(a: int, k: int, r: nat)
    requires a == BLOCK * k + r && r < BLOCK
    ensures a % BLOCK == r
  {
  }

  lemma {:induction false} LittleEndianIsInjective(a: nat, b: nat, k: nat)
    requires a < Pow256(k) && b < Pow256(k) && LittleEndian(a, k) == LittleEndian(b, k)
    ensures a == b
    decreases k
  {
    if k > 0 {
      assert LittleEndian(a, k)[0] == LittleEndian(b, k)[0];
      assert LittleEndian(a, k)[1..] == LittleEndian(a / 256, k - 1);
      assert LittleEndian(b, k)[1..] == LittleEndian(b / 256, k - 1);
      LittleEndianIsInjective(a / 256, b / 256, k - 1);
    }
  }

  /** Messages shorter than 2^61 octets stay different when padded. */
  lemma PaddingIsInjective(m: seq<byte>, n: seq<byte>)
    requires 8 * |m| < TWO_64 && 8 * |n| < TWO_64 && Padded(m) == Padded(n)
    ensures m == n
  {
    hide LittleEndian, Padding, Zeros;
    var p := Padded(m);
    assert p[|p| - 8..] == LittleEndian(BitLength(m), 8) && p[|p| - 8..] == LittleEndian(BitLength(n), 8);
    Pow256Widths();
    LittleEndianIsInjective(BitLength(m), BitLength(n), 8);
    assert p[..|m|] == m && p[..|n|] == n;
  }

  // ---------- the two length counters ----------

  lemma Offset(count0: nat, count1: nat, length: nat)
    requires count0 < TWO_32 && count0 + TWO_32 * count1 == 8 * length % TWO_64
    ensures count0 / 8 % BLOCK == length % BLOCK
  {
    var q := 8 * length / TWO_64;
    assert 8 * length == TWO_64 * q + count0 + TWO_32 * count1;
    assert length == TWO_64 / 8 * q + TWO_32 / 8 * count1 + count0 / 8;
    assert TWO_64 / 8 * q + TWO_32 / 8 * count1 == BLOCK * (TWO_64 / 512 * q + TWO_32 / 512 * count1);
    SameRemainder(length, count0 / 8, TWO_64 / 512 * q + TWO_32 / 512 * count1);
  }

  lemma SameRemainder(a: nat, b: nat, k: nat)
    requires a == BLOCK * k + b
    ensures a % BLOCK == b % BLOCK
  {
  }

  /** Adding the low and the high part of a bit length, with a carry, adds the bit length. */
  lemma CountersAdd(count0: nat, count1: nat, length: nat, n: nat)
    requires count0 < TWO_32 && count1 < TWO_32 && count0 + TWO_32 * count1 == 8 * length % TWO_64
    ensures var bits := 8 * n % TWO_32;
            var low := (count0 + bits) % TWO_32;
            var high := (count1 + n / 0x2000_0000 + if low < bits then 1 else 0) % TWO_32;
            low + TWO_32 * high == 8 * (length + n) % TWO_64
  {
    var bits, up := 8 * n % TWO_32, n / 0x2000_0000;
    assert 8 * n == TWO_32 * up + bits;
    var low := (count0 + bits) % TWO_32;
    var carry := if low < bits then 1 else 0;
    assert count0 + bits == low + TWO_32 * carry;
    var high := (count1 + up + carry) % TWO_32;
    var q, r := 8 * length / TWO_64, (count1 + up + carry) / TWO_32;
    assert 8 * length == TWO_64 * q + count0 + TWO_32 * count1;
    assert count1 + up + carry == TWO_32 * r + high;
    assert 8 * (length + n) == TWO_64 * (q + r) + (low + TWO_32 * high);
    UniqueRemainder(8 * (length + n), q + r, low + TWO_32 * high);
  }

  lemma CarryLater(a: nat)
    ensures (a % TWO_32 + 1) % TWO_32 == (a + 1) % TWO_32
  {
  }

  lemma UniqueRemainder(a: nat, q: nat, r: nat)
    requires a == TWO_64 * q + r && r < TWO_64
    ensures a % TWO_64 == r
  {
  }

  // ---------- the incremental state ----------

  class State {
    const compress: Compression
    var count0: Word
    var count1: Word
    var abcd: Digest
    const buf: array<byte>
    ghost var message: seq<byte>

    /** The fields are those of the message, however it was cut into pieces. */
    ghost predicate Valid()
      reads this, buf
    {
      && buf.Length == BLOCK
      && count0 + TWO_32 * count1 == BitLength(message)
      && abcd == Blocks(compress, INIT, message)
      && buf[..|message| % BLOCK] == Rest(message)
    }

    constructor (compress: Compression)
      ensures Valid() && message == [] && this.compress == compress && fresh(buf)
    {
      this.compress := compress;
      count0, count1, abcd, message := 0, 0, INIT, [];
      buf := new byte[BLOCK];
    }

    method Process(block: seq<byte>)
      requires |block| == BLOCK
      modifies this`abcd
      ensures abcd == compress(old(abcd), block)
    {
      abcd := compress(abcd, block);
    }

    method AddLength(n: nat)
      requires count0 + TWO_32 * count1 == BitLength(message)
      modifies this`count0, this`count1
      ensures count0 + TWO_32 * count1 == 8 * (|message| + n) % TWO_64
    {
      CountersAdd(count0, count1, |message|, n);
      CarryLater(count1 + n / 0x2000_0000);
      var bits: Word := 8 * n % TWO_32;
      count1 := (count1 + n / 0x2000_0000) % TWO_32;
      count0 := (count0 + bits) % TWO_32;
      if count0 < bits {
        count1 := (count1 + 1) % TWO_32;
      }
    }

    method CopyToBuffer(offset: nat, data: seq<byte>)
      requires buf.Length == BLOCK && offset + |data| <= BLOCK
      modifies buf
      ensures buf[..offset] == old(buf[..offset]) && buf[offset..offset + |data|] == data
    {
      forall i | 0 <= i < |data| {
        buf[offset + i] := data[i];
      }
    }

    /** The full blocks of data, and then what is left into the buffer. */
    method ProcessBlocks(data: seq<byte>)
      requires buf.Length == BLOCK
      modifies this`abcd, buf
      ensures abcd == Blocks(compress, old(abcd), data) && buf[..|data| % BLOCK] == Rest(data)
    {
      var p, left := 0, |data|;
      assert data[0..] == data;
      while left >= BLOCK
        invariant 0 <= p <= |data| && p + left == |data|
        invariant Blocks(compress, abcd, data[p..]) == Blocks(compress, old(abcd), data)
        invariant Rest(data[p..]) == Rest(data)
      {
        assert data[p..][..BLOCK] == data[p..p + BLOCK] && data[p..][BLOCK..] == data[p + BLOCK..];
        Process(data[p..p + BLOCK]);
        p, left := p + BLOCK, left - BLOCK;
      }
      NoBlock(compress, abcd, data[p..]);
      if left > 0 {
        CopyToBuffer(0, data[p..]);
        assert buf[..left] == buf[0..0 + |data[p..]|];
      }
    }

    /** Complete the block in the buffer, as far as data goes. */
    method FillBlock(offset: nat, data: seq<byte>) returns (full: bool, p: nat)
      requires buf.Length == BLOCK && 0 < offset < BLOCK && |data| + BLOCK < TWO_64
      modifies this`abcd, buf
      ensures var s := old(buf[..offset]) + data;
              && full == (|s| >= BLOCK)
              && (full ==> p <= |data| && abcd == compress(old(abcd), s[..BLOCK]) && data[p..] == s[BLOCK..])
              && (!full ==> abcd == old(abcd) && buf[..|s|] == s)
    {
      var copy := if (offset + |data|) % TWO_64 > BLOCK then BLOCK - offset else |data|;
      CopyToBuffer(offset, data[..copy]);
      assert buf[..offset + copy] == old(buf[..offset]) + data[..copy];
      full, p := offset + copy == BLOCK, copy;
      if full {
        assert buf[..] == (old(buf[..offset]) + data)[..BLOCK];
        Process(buf[..]);
      } else {
        assert data[..copy] == data;
      }
    }

    method Append(data: seq<byte>)
      requires Valid() && |data| + BLOCK < TWO_64
      modifies this, buf
      ensures Valid() && message == old(message) + data
    {
      hide Blocks, Rest;
      Offset(count0, count1, |message|);
      var offset := count0 / 8 % BLOCK;
      BlocksGoOn(compress, INIT, message, data);
      if |data| == 0 {
        assert message + data == message;
        return;
      }
      AddLength(|data|);
      ghost var s := Rest(message) + data;
      message := message + data;
      var p := 0;
      if offset > 0 {
        var full;
        full, p := FillBlock(offset, data);
        if !full {
          NoBlock(compress, abcd, s);
          return;
        }
        OneBlock(compress, old(abcd), s);
      } else {
        assert s == data[p..];
      }
      ProcessBlocks(data[p..]);
    }

    method Finish() returns (digest: seq<byte>)
      requires Valid()
      modifies this, buf
      ensures digest == Hash(compress, old(message))
    {
      hide Blocks, Rest, LittleEndian, Padding, Zeros, BitLength, DigestOctets;
      var data := LittleEndian(count0, 4) + LittleEndian(count1, 4);
      var pad := [0x80] + Zeros((55 - count0 / 8) % BLOCK);
      PadAndLength(count0, count1, message);
      Append(pad);
      Append(data);
      digest := DigestOctets(abcd);
    }
  }

  /** The padding and the length, as the counters give them. */
  lemma PadAndLength(count0: Word, count1: Word, m: seq<byte>)
    requires count0 + TWO_32 * count1 == BitLength(m)
    ensures [0x80] + Zeros((55 - count0 / 8) % BLOCK) == Padding(m) && |Padding(m)| <= BLOCK
    ensures LittleEndian(count0, 4) + LittleEndian(count1, 4) == LittleEndian(BitLength(m), 8)
  {
    hide LittleEndian, Zeros;
    Offset(count0, count1, |m|);
    PadLength(count0 / 8, |m|);
    Counters(count0, count1);
  }

  lemma NoBlock(h: Compression, d: Digest, s: seq<byte>)
    requires |s| < BLOCK
    ensures Blocks(h, d, s) == d && Rest(s) == s
  {
  }

  lemma OneBlock(h: Compression, d: Digest, s: seq<byte>)
    requires |s| >= BLOCK
    ensures Blocks(h, d, s) == Blocks(h, h(d, s[..BLOCK]), s[BLOCK..]) && Rest(s) == Rest(s[BLOCK..])
  {
  }

  lemma PadLength(a: nat, b: nat)
    requires a % BLOCK == b % BLOCK
    ensures (55 - a) % BLOCK == (55 - b) % BLOCK
  {
  }

  /** The octets of the two counters are those of the 64-bit number they form. */
  lemma Counters(low: Word, high: Word)
    ensures LittleEndian(low, 4) + LittleEndian(high, 4) == LittleEndian(low + TWO_32 * high, 8)
  {
    LittleEndianSplits(low, high, 4);
    assert Pow256(4) == TWO_32;
  }

  lemma {:induction false} LittleEndianSplits(low: nat, high: nat, k: nat)
    requires low < Pow256(k)
    ensures LittleEndian(low, k) + LittleEndian(high, 4) == LittleEndian(low + Pow256(k) * high, k + 4)
    decreases k
  {
    hide Pow256, LittleEndian;
    assert Pow256(0) == 1 && LittleEndian(low, 0) == [] by { NoOctets(low); }
    if k > 0 {
      var p := Pow256(k - 1);
      assert Pow256(k) == 256 * p by { NextPower(k); }
      Associate(p, high);
      SplitOff(low, p * high);
      LittleEndianSplits(low / 256, high, k - 1);
      FirstOctet(low + 256 * (p * high), k + 4);
      FirstOctet(low, k);
    }
  }

  lemma NextPower(k: nat)
    requires k > 0
    ensures Pow256(k) == 256 * Pow256(k - 1)
  {
  }

  lemma NoOctets(n: nat)
    ensures Pow256(0) == 1 && LittleEndian(n, 0) == []
  {
  }

  lemma FirstOctet(n: nat, k: nat)
    requires k > 0
    ensures LittleEndian(n, k) == [ToByte(n % 256)] + LittleEndian(n / 256, k - 1)
  {
  }

  lemma Associate(p: nat, high: nat)
    ensures 256 * p * high == 256 * (p * high)
  {
  }

  lemma SplitOff(low: nat, x: nat)
    ensures (low + 256 * x) % 256 == low % 256 && (low + 256 * x) / 256 == low / 256 + x
  {
  }

  /** Hashing a message in pieces gives the hash of the message. */
  method HashPieces(compress: Compression, pieces: seq<seq<byte>>) returns (digest: seq<byte>)
    requires forall p :: p in pieces ==> |p| + BLOCK < TWO_64
    ensures digest == Hash(compress, Flatten(pieces))
  {
    var state := new State(compress);
    for i := 0 to |pieces|
      invariant state.Valid() && fresh(state) && fresh(state.buf) && state.compress == compress
      invariant state.message == Flatten(pieces[..i])
    {
      state.Append(pieces[i]);
      FlattenSnoc(pieces[..i], pieces[i]);
      assert pieces[..i + 1] == pieces[..i] + [pieces[i]];
    }
    assert pieces[..|pieces|] == pieces;
    digest := state.Finish();
  }
}
