/**
 Payload masking (RFC 6455, section 5.3): prepared keys held in a machine word, the octet-wise
 and the word-wise masking loops. Words are 64 bits; little tells the byte order of the machine.
 */
module Mask {
  import opened Bytes

  // ---------- masking octet strings ----------

  function XorByte(a: byte, b: byte): byte { a ^ b }

  lemma XorTwice(a: byte, k: byte)
    ensures XorByte(XorByte(a, k), k) == a
  {
  }

  /** The key as it applies one octet later. */
  function Turn(key: seq<byte>): (r: seq<byte>)
    requires |key| == 4
    ensures |r| == 4
  {
    [key[1], key[2], key[3], key[0]]
  }

  function Rotate(key: seq<byte>, n: nat): (r: seq<byte>)
    requires |key| == 4
    ensures |r| == 4
    decreases n
  {
    if n == 0 then key else Rotate(Turn(key), n - 1)
  }

  function Masked(key: seq<byte>, data: seq<byte>): (r: seq<byte>)
    requires |key| == 4
    ensures |r| == |data|
    decreases |data|
  {
    if data == [] then [] else [XorByte(data[0], key[0])] + Masked(Turn(key), data[1..])
  }

  lemma TurnAt(key: seq<byte>, i: nat)
    requires |key| == 4 && i > 0
    ensures Turn(key)[(i - 1) % 4] == key[i % 4]
  {
  }

  /** Section 5.3 of RFC 6455: octet i of the payload goes with octet i mod 4 of the key. */
  lemma {:induction false} MaskedAt(key: seq<byte>, data: seq<byte>, i: nat)
    requires |key| == 4 && i < |data|
    ensures Masked(key, data)[i] == XorByte(data[i], key[i % 4])
    decreases |data|
  {
    if i > 0 {
      MaskedAt(Turn(key), data[1..], i - 1);
      TurnAt(key, i);
    }
  }

  /** Unmasking is masking again. */
  lemma MaskIsInvolution(key: seq<byte>, data: seq<byte>)
    requires |key| == 4
    ensures Masked(key, Masked(key, data)) == data
  {
    forall i | 0 <= i < |data| ensures Masked(key, Masked(key, data))[i] == data[i] {
      MaskedAt(key, data, i);
      MaskedAt(key, Masked(key, data), i);
      XorTwice(data[i], key[i % 4]);
    }
  }

  /** Masking in two pieces: the second piece takes the key rotated by the length of the first. */
  lemma {:induction false} MaskedConcat(key: seq<byte>, a: seq<byte>, b: seq<byte>)
    requires |key| == 4
    ensures Masked(key, a + b) == Masked(key, a) + Masked(Rotate(key, |a|), b)
    decreases |a|
  {
    if a == [] {
      assert a + b == b;
    } else {
      assert (a + b)[0] == a[0] && (a + b)[1..] == a[1..] + b;
      MaskedConcat(Turn(key), a[1..], b);
    }
  }

  lemma {:induction false} RotateAdd(key: seq<byte>, m: nat, n: nat)
    requires |key| == 4
    ensures Rotate(Rotate(key, m), n) == Rotate(key, m + n)
    decreases m
  {
    if m > 0 { RotateAdd(Turn(key), m - 1, n); }
  }

  lemma RotateSmall(key: seq<byte>)
    requires |key| == 4
    ensures Rotate(key, 0) == key
    ensures Rotate(key, 1) == Turn(key)
    ensures Rotate(key, 2) == [key[2], key[3], key[0], key[1]]
    ensures Rotate(key, 3) == [key[3], key[0], key[1], key[2]]
    ensures Rotate(key, 4) == key
  {
    var a := Turn(key);
    var b := Turn(a);
    var c := Turn(b);
    var d := Turn(c);
    assert Rotate(key, 1) == Rotate(a, 0);
    assert Rotate(key, 2) == Rotate(a, 1) == Rotate(b, 0);
    assert Rotate(key, 3) == Rotate(a, 2) == Rotate(b, 1) == Rotate(c, 0);
    assert Rotate(key, 4) == Rotate(a, 3) == Rotate(b, 2) == Rotate(c, 1) == Rotate(d, 0);
    assert d == key;
  }

  lemma {:induction false} RotateMod(key: seq<byte>, n: nat)
    requires |key| == 4
    ensures Rotate(key, n) == Rotate(key, n % 4)
    decreases n
  {
    if n >= 4 {
      RotateSmall(key);
      RotateAdd(key, 4, n - 4);
      RotateMod(key, n - 4);
    }
  }

  // ---------- machine words ----------

  /** A 64-bit word as its octets, least significant first. */
  type Word = w: seq<byte> | |w| == 8 witness [0, 0, 0, 0, 0, 0, 0, 0]

  function Lane0(w: bv64): byte { (w & 0xFF) as byte }
  function Lane1(w: bv64): byte { ((w >> 8) & 0xFF) as byte }
  function Lane2(w: bv64): byte { ((w >> 16) & 0xFF) as byte }
  function Lane3(w: bv64): byte { ((w >> 24) & 0xFF) as byte }
  function Lane4(w: bv64): byte { ((w >> 32) & 0xFF) as byte }
  function Lane5(w: bv64): byte { ((w >> 40) & 0xFF) as byte }
  function Lane6(w: bv64): byte { ((w >> 48) & 0xFF) as byte }
  function Lane7(w: bv64): byte { ((w >> 56) & 0xFF) as byte }

  function OfBits(w: bv64): Word {
    [Lane0(w), Lane1(w), Lane2(w), Lane3(w), Lane4(w), Lane5(w), Lane6(w), Lane7(w)]
  }

  /** w >> 8n */
  function ShiftRight(w: Word, n: nat): Word
    requires n <= 8
  {
    w[n..] + Zeros(n)
  }

  /** w << 8n */
  function ShiftLeft(w: Word, n: nat): Word
    requires n <= 8
  {
    Zeros(n) + w[..8 - n]
  }

  function OrByte(a: byte, b: byte): byte { a | b }

  function OrWord(w: Word, v: Word): Word {
    seq(8, i requires 0 <= i < 8 => OrByte(w[i], v[i]))
  }

  function XorWord(w: Word, v: Word): Word {
    seq(8, i requires 0 <= i < 8 => XorByte(w[i], v[i]))
  }

  // The octet-wise operations are the machine's operations on 64 bits.

  lemma MachineShiftRight(w: bv64)
    ensures OfBits(w >> 8) == ShiftRight(OfBits(w), 1) && OfBits(w >> 16) == ShiftRight(OfBits(w), 2)
    ensures OfBits(w >> 24) == ShiftRight(OfBits(w), 3)
  {
  }

  lemma MachineShiftRightFar(w: bv64)
    ensures OfBits(w >> 32) == ShiftRight(OfBits(w), 4) && OfBits(w >> 40) == ShiftRight(OfBits(w), 5)
    ensures OfBits(w >> 48) == ShiftRight(OfBits(w), 6) && OfBits(w >> 56) == ShiftRight(OfBits(w), 7)
  {
  }

  lemma ShiftLeftByOctets(v: Word)
    ensures ShiftLeft(v, 1) == [0, v[0], v[1], v[2], v[3], v[4], v[5], v[6]]
    ensures ShiftLeft(v, 2) == [0, 0, v[0], v[1], v[2], v[3], v[4], v[5]]
    ensures ShiftLeft(v, 3) == [0, 0, 0, v[0], v[1], v[2], v[3], v[4]]
    ensures ShiftLeft(v, 4) == [0, 0, 0, 0, v[0], v[1], v[2], v[3]]
    ensures ShiftLeft(v, 5) == [0, 0, 0, 0, 0, v[0], v[1], v[2]]
    ensures ShiftLeft(v, 6) == [0, 0, 0, 0, 0, 0, v[0], v[1]]
    ensures ShiftLeft(v, 7) == [0, 0, 0, 0, 0, 0, 0, v[0]]
  {
  }

  lemma MachineShiftLeft(w: bv64)
    ensures OfBits(w << 8) == ShiftLeft(OfBits(w), 1) && OfBits(w << 16) == ShiftLeft(OfBits(w), 2)
    ensures OfBits(w << 24) == ShiftLeft(OfBits(w), 3)
  {
    hide ShiftLeft;
    ShiftLeftByOctets(OfBits(w));
  }

  lemma MachineShiftLeftFar(w: bv64)
    ensures OfBits(w << 32) == ShiftLeft(OfBits(w), 4) && OfBits(w << 40) == ShiftLeft(OfBits(w), 5)
    ensures OfBits(w << 48) == ShiftLeft(OfBits(w), 6) && OfBits(w << 56) == ShiftLeft(OfBits(w), 7)
  {
    hide ShiftLeft;
    ShiftLeftByOctets(OfBits(w));
  }

  lemma LanesOfOr(w: bv64, v: bv64)
    ensures Lane0(w | v) == OrByte(Lane0(w), Lane0(v)) && Lane1(w | v) == OrByte(Lane1(w), Lane1(v))
    ensures Lane2(w | v) == OrByte(Lane2(w), Lane2(v)) && Lane3(w | v) == OrByte(Lane3(w), Lane3(v))
    ensures Lane4(w | v) == OrByte(Lane4(w), Lane4(v)) && Lane5(w | v) == OrByte(Lane5(w), Lane5(v))
    ensures Lane6(w | v) == OrByte(Lane6(w), Lane6(v)) && Lane7(w | v) == OrByte(Lane7(w), Lane7(v))
  {
  }

  lemma OrByOctets(a: Word, b: Word)
    ensures OrWord(a, b) == [OrByte(a[0], b[0]), OrByte(a[1], b[1]), OrByte(a[2], b[2]), OrByte(a[3], b[3]),
                             OrByte(a[4], b[4]), OrByte(a[5], b[5]), OrByte(a[6], b[6]), OrByte(a[7], b[7])]
  {
    hide OrByte;
    var r := OrWord(a, b);
    assert r[0] == OrByte(a[0], b[0]) && r[1] == OrByte(a[1], b[1]) && r[2] == OrByte(a[2], b[2]);
    assert r[3] == OrByte(a[3], b[3]) && r[4] == OrByte(a[4], b[4]) && r[5] == OrByte(a[5], b[5]);
    assert r[6] == OrByte(a[6], b[6]) && r[7] == OrByte(a[7], b[7]);
  }

  lemma MachineOr(w: bv64, v: bv64)
    ensures OfBits(w | v) == OrWord(OfBits(w), OfBits(v))
  {
    hide OrWord, OrByte, Lane0, Lane1, Lane2, Lane3, Lane4, Lane5, Lane6, Lane7;
    LanesOfOr(w, v);
    OrByOctets(OfBits(w), OfBits(v));
  }

  lemma LanesOfXor(w: bv64, v: bv64)
    ensures Lane0(w ^ v) == XorByte(Lane0(w), Lane0(v)) && Lane1(w ^ v) == XorByte(Lane1(w), Lane1(v))
    ensures Lane2(w ^ v) == XorByte(Lane2(w), Lane2(v)) && Lane3(w ^ v) == XorByte(Lane3(w), Lane3(v))
    ensures Lane4(w ^ v) == XorByte(Lane4(w), Lane4(v)) && Lane5(w ^ v) == XorByte(Lane5(w), Lane5(v))
    ensures Lane6(w ^ v) == XorByte(Lane6(w), Lane6(v)) && Lane7(w ^ v) == XorByte(Lane7(w), Lane7(v))
  {
  }

  lemma XorByOctets(a: Word, b: Word)
    ensures XorWord(a, b) == [XorByte(a[0], b[0]), XorByte(a[1], b[1]), XorByte(a[2], b[2]), XorByte(a[3], b[3]),
                              XorByte(a[4], b[4]), XorByte(a[5], b[5]), XorByte(a[6], b[6]), XorByte(a[7], b[7])]
  {
    hide XorByte;
    var r := XorWord(a, b);
    assert r[0] == XorByte(a[0], b[0]) && r[1] == XorByte(a[1], b[1]) && r[2] == XorByte(a[2], b[2]);
    assert r[3] == XorByte(a[3], b[3]) && r[4] == XorByte(a[4], b[4]) && r[5] == XorByte(a[5], b[5]);
    assert r[6] == XorByte(a[6], b[6]) && r[7] == XorByte(a[7], b[7]);
  }

  lemma MachineXor(w: bv64, v: bv64)
    ensures OfBits(w ^ v) == XorWord(OfBits(w), OfBits(v))
  {
    hide XorWord, XorByte, Lane0, Lane1, Lane2, Lane3, Lane4, Lane5, Lane6, Lane7;
    LanesOfXor(w, v);
    XorByOctets(OfBits(w), OfBits(v));
  }

  lemma OrZero(a: byte)
    ensures OrByte(a, 0) == a && OrByte(0, a) == a
  {
  }

  /** The word that lies in eight octets of memory, and the octets a word leaves there. */
  function InMemory(s: seq<byte>, little: bool): (r: seq<byte>)
    requires |s| == 8
    ensures |r| == 8 && forall i :: 0 <= i < 8 ==> r[i] == s[if little then i else 7 - i]
  {
    if little then s else [s[7], s[6], s[5], s[4], s[3], s[2], s[1], s[0]]
  }

  // ---------- keys ----------

  /** The 32-bit member of the key union, least significant octet first, given the octets in memory; and back. */
  function KeyInteger(c: seq<byte>, little: bool): (r: seq<byte>)
    requires |c| == 4
    ensures |r| == 4
  {
    if little then c else [c[3], c[2], c[1], c[0]]
  }

  /** prepare_masking_key: the integer in the lower and in the upper half. */
  function PrepareMaskingKey(key: seq<byte>, little: bool): Word
    requires |key| == 4
  {
    var low := KeyInteger(key, little) + Zeros(4);
    OrWord(ShiftLeft(low, 4), low)
  }

  function CircshiftPreparedKey(k: Word, offset: nat, little: bool): Word
    requires offset < 8
  {
    if offset == 0 then k
    else if little then OrWord(ShiftRight(k, offset), ShiftLeft(k, 8 - offset))
    else OrWord(ShiftLeft(k, offset), ShiftRight(k, 8 - offset))
  }

  /** The word repeats its lower half. */
  predicate Periodic(k: Word) { k[..4] == k[4..] }

  /** The key octets of octet-wise masking: the word cut down to the 32-bit member of the key union. */
  function KeyOctets(k: Word, little: bool): (c: seq<byte>)
    ensures |c| == 4
  {
    KeyInteger(k[..4], little)
  }

  /** A freshly prepared key is periodic and stands for the octets of the masking key. */
  lemma PreparedKeyIsPeriodic(key: seq<byte>, little: bool)
    requires |key| == 4
    ensures Periodic(PrepareMaskingKey(key, little))
    ensures KeyOctets(PrepareMaskingKey(key, little), little) == key
  {
    hide OrByte, KeyInteger;
    var i := KeyInteger(key, little);
    forall j | 0 <= j < 4
      ensures PrepareMaskingKey(key, little)[j] == i[j] && PrepareMaskingKey(key, little)[j + 4] == i[j]
    {
      OrZero(i[j]);
    }
    assert PrepareMaskingKey(key, little)[..4] == i;
    KeyIntegerTwice(key, little);
  }

  lemma KeyIntegerTwice(c: seq<byte>, little: bool)
    requires |c| == 4
    ensures KeyInteger(KeyInteger(c, little), little) == c
  {
  }

  /** A periodic key stores its four key octets twice. */
  lemma PeriodicWord(k: Word, i: nat, little: bool)
    requires Periodic(k) && i < 8
    ensures InMemory(k, little)[i] == KeyOctets(k, little)[i % 4]
  {
    assert forall j :: 0 <= j < 4 ==> k[..4][j] == k[4..][j];
    assert forall j :: 0 <= j < 4 ==> k[j] == k[j + 4];
  }

  lemma ShiftsRotate(k: Word, n: nat)
    requires 0 < n < 8
    ensures OrWord(ShiftRight(k, n), ShiftLeft(k, 8 - n)) == k[n..] + k[..n]
    ensures OrWord(ShiftLeft(k, 8 - n), ShiftRight(k, n)) == k[n..] + k[..n]
  {
    hide OrByte;
    forall i | 0 <= i < 8
      ensures OrWord(ShiftRight(k, n), ShiftLeft(k, 8 - n))[i] == (k[n..] + k[..n])[i]
      ensures OrWord(ShiftLeft(k, 8 - n), ShiftRight(k, n))[i] == (k[n..] + k[..n])[i]
    {
      OrZero((k[n..] + k[..n])[i]);
    }
  }

  lemma RotateRepeated(k: Word, n: nat)
    requires Periodic(k) && 0 < n < 8
    ensures var r := k[n..] + k[..n];
            Periodic(r) && r[..4] == Rotate(k[..4], n)
  {
    hide Periodic, Rotate;
    var r := k[n..] + k[..n];
    forall j | 0 <= j < 8 ensures r[j] == Rotate(k[..4], n)[j % 4] {
      var i := if n + j < 8 then n + j else n + j - 8;
      PeriodicAt(k, i);
      RotateAt(k[..4], n, j);
    }
    assert r[..4] == Rotate(k[..4], n) && r[4..] == r[..4];
    TwiceIsPeriodic(r);
  }

  lemma PeriodicAt(k: Word, i: nat)
    requires Periodic(k) && i < 8
    ensures k[i] == k[..4][i % 4]
  {
    if i >= 4 { assert k[i] == k[4..][i - 4]; }
  }

  lemma TwiceIsPeriodic(k: Word)
    requires k[4..] == k[..4]
    ensures Periodic(k)
  {
  }

  lemma RotateReversed(c: seq<byte>, n: nat)
    requires |c| == 4 && 0 < n < 8
    ensures KeyInteger(Rotate(c, 8 - n), false) == Rotate(KeyInteger(c, false), n)
  {
    hide Rotate;
    RotateMod(c, 8 - n);
    RotateSmall(c);
    RotateMod(KeyInteger(c, false), n);
    RotateSmall(KeyInteger(c, false));
  }

  /** Shifting a prepared key by some octets keeps it periodic and rotates the key octets it stands for. */
  lemma CircshiftRotates(k: Word, offset: nat, little: bool)
    requires Periodic(k) && offset < 8
    ensures Periodic(CircshiftPreparedKey(k, offset, little))
    ensures KeyOctets(CircshiftPreparedKey(k, offset, little), little) == Rotate(KeyOctets(k, little), offset)
  {
    hide OrWord, ShiftRight, ShiftLeft, Periodic;
    if offset > 0 {
      var n := if little then offset else 8 - offset;
      ShiftsRotate(k, n);
      RotateRepeated(k, n);
      if !little { RotateReversed(k[..4], offset); }
    }
  }

  // ---------- the masking loops ----------

  lemma RotateAt(key: seq<byte>, n: nat, j: nat)
    requires |key| == 4
    ensures Rotate(key, n)[j % 4] == key[(n + j) % 4]
  {
    hide Rotate;
    RotateMod(key, n);
    RotateSmall(key);
    SmallSum(n, j);
  }

  lemma SmallSum(n: nat, j: nat)
    ensures (n + j) % 4 == if n % 4 + j % 4 < 4 then n % 4 + j % 4 else n % 4 + j % 4 - 4
  {
  }

  lemma MaskedSnoc(key: seq<byte>, data: seq<byte>, n: nat)
    requires |key| == 4 && n < |data|
    ensures Masked(key, data[..n + 1]) == Masked(key, data[..n]) + [XorByte(data[n], key[n % 4])]
  {
    hide XorByte;
    assert data[..n + 1] == data[..n] + [data[n]];
    MaskedConcat(key, data[..n], [data[n]]);
    MaskedAt(key, data[..n + 1], n);
  }

  lemma XorInRegister(chunk: seq<byte>, k: Word, i: nat, little: bool)
    requires |chunk| == 8 && i < 8
    ensures InMemory(XorWord(InMemory(chunk, little), k), little)[i] == XorByte(chunk[i], InMemory(k, little)[i])
  {
    hide XorByte, InMemory;
    var j := if little then i else 7 - i;
    var w := InMemory(chunk, little);
    assert XorWord(w, k)[j] == XorByte(w[j], k[j]);
  }

  /** A whole word masked in a register is eight octets masked in memory. */
  lemma MaskedWord(k: Word, chunk: seq<byte>, little: bool)
    requires Periodic(k) && |chunk| == 8
    ensures InMemory(XorWord(InMemory(chunk, little), k), little) == Masked(KeyOctets(k, little), chunk)
  {
    hide XorByte, Masked, KeyOctets, Periodic, InMemory;
    var masked := Masked(KeyOctets(k, little), chunk);
    forall i | 0 <= i < 8 ensures InMemory(XorWord(InMemory(chunk, little), k), little)[i] == masked[i] {
      XorInRegister(chunk, k, i, little);
      MaskedAt(KeyOctets(k, little), chunk, i);
      PeriodicWord(k, i, little);
    }
  }

  lemma MaskedWords(k: Word, data: seq<byte>, i: nat, little: bool)
    requires Periodic(k) && 8 * i + 8 <= |data|
    ensures Masked(KeyOctets(k, little), data[..8 * i + 8]) ==
            Masked(KeyOctets(k, little), data[..8 * i])
            + InMemory(XorWord(InMemory(data[8 * i..8 * i + 8], little), k), little)
  {
    hide *;
    var key := KeyOctets(k, little);
    assert data[..8 * i + 8] == data[..8 * i] + data[8 * i..8 * i + 8];
    MaskedConcat(key, data[..8 * i], data[8 * i..8 * i + 8]);
    RotateMod(key, 8 * i);
    RotateSmall(key);
    MaskedWord(k, data[8 * i..8 * i + 8], little);
  }

  lemma NextKeyIndex(n: nat)
    ensures (n % 4 + 1) % 4 == (n + 1) % 4
  {
  }

  /** byte_mask: from input to output, which may be the same memory. */
  method ByteMask(input: array<byte>, output: array<byte>, key: seq<byte>, keyOffset: nat)
    requires |key| == 4 && input.Length <= output.Length
    modifies output
    ensures output[..input.Length] == Masked(Rotate(key, keyOffset), old(input[..]))
    ensures output[input.Length..] == old(output[input.Length..])
  {
    hide Masked, Rotate;
    var keyIndex := keyOffset % 4;
    ghost var turned, data := Rotate(key, keyOffset), input[..];
    var i := 0;
    while i < input.Length
      invariant 0 <= i <= input.Length && keyIndex == (keyOffset + i) % 4
      invariant output[..i] == Masked(turned, data[..i])
      invariant output[i..] == old(output[i..])
      invariant forall j :: i <= j < input.Length ==> input[j] == data[j]
    {
      MaskedSnoc(turned, data, i);
      RotateAt(key, keyOffset, i);
      assert old(output[i..])[1..] == old(output[i + 1..]);
      output[i] := XorByte(input[i], key[keyIndex]);
      assert output[i + 1..] == output[i..][1..];
      NextKeyIndex(keyOffset + i);
      keyIndex := (keyIndex + 1) % 4;
      i := i + 1;
    }
    assert data[..i] == data;
  }

  lemma KeyAfterOctets(k: Word, length: nat, little: bool)
    ensures var next := CircshiftPreparedKey(k, length % 4, little);
            Periodic(k) ==> Periodic(next) && KeyOctets(next, little) == Rotate(KeyOctets(k, little), length)
  {
    hide KeyOctets, CircshiftPreparedKey, Periodic, Rotate;
    if Periodic(k) {
      CircshiftRotates(k, length % 4, little);
      RotateMod(KeyOctets(k, little), length);
    }
  }

  /** byte_mask_circ on octets from .. from + length; returns the key for the octets after them. */
  method ByteMaskCirc(input: array<byte>, output: array<byte>, from: nat, length: nat, k: Word, little: bool)
    returns (next: Word)
    requires from + length <= input.Length && from + length <= output.Length
    modifies output
    ensures output[from..from + length] == Masked(KeyOctets(k, little), old(input[from..from + length]))
    ensures output[..from] == old(output[..from]) && output[from + length..] == old(output[from + length..])
    ensures next == CircshiftPreparedKey(k, length % 4, little)
    ensures Periodic(k) ==> Periodic(next) && KeyOctets(next, little) == Rotate(KeyOctets(k, little), length)
  {
    hide Masked, KeyOctets, CircshiftPreparedKey, Periodic, Rotate;
    var key := KeyOctets(k, little);
    ghost var data := input[from..from + length];
    var i := 0;
    while i < length
      invariant 0 <= i <= length
      invariant output[from..from + i] == Masked(key, data[..i])
      invariant output[..from] == old(output[..from]) && output[from + i..] == old(output[from + i..])
      invariant forall j :: from + i <= j < from + length ==> input[j] == data[j - from]
    {
      MaskedSnoc(key, data, i);
      assert old(output[from + i..])[1..] == old(output[from + i + 1..]);
      output[from + i] := XorByte(input[from + i], key[i % 4]);
      assert output[from + i + 1..] == output[from + i..][1..];
      i := i + 1;
    }
    assert data[..length] == data;
    next := CircshiftPreparedKey(k, length % 4, little);
    KeyAfterOctets(k, length, little);
  }

  method StoreWord(output: array<byte>, at: nat, w: Word, little: bool)
    requires at + 8 <= output.Length
    modifies output
    ensures output[at..at + 8] == InMemory(w, little)
    ensures forall j :: 0 <= j < output.Length && !(at <= j < at + 8) ==> output[j] == old(output[j])
  {
    hide InMemory;
    var m := InMemory(w, little);
    forall j | 0 <= j < 8 {
      output[at + j] := m[j];
    }
  }

  /** The loop over whole words shared by both word-wise maskings. */
  method MaskWords(input: array<byte>, output: array<byte>, n: nat, k: Word, little: bool)
    requires Periodic(k) && 8 * n <= input.Length && 8 * n <= output.Length
    modifies output
    ensures output[..8 * n] == Masked(KeyOctets(k, little), old(input[..8 * n]))
    ensures forall j :: 8 * n <= j < output.Length ==> output[j] == old(output[j])
    ensures forall j :: 8 * n <= j < input.Length ==> input[j] == old(input[j])
  {
    hide Masked, KeyOctets, Periodic, InMemory, XorWord;
    var key := KeyOctets(k, little);
    ghost var data := input[..8 * n];
    var i := 0;
    while i < n
      invariant 0 <= i <= n
      invariant output[..8 * i] == Masked(key, data[..8 * i])
      invariant forall j :: 8 * i <= j < output.Length ==> output[j] == old(output[j])
      invariant forall j :: 8 * i <= j < input.Length ==> input[j] == old(input[j])
    {
      assert input[8 * i..8 * i + 8] == data[8 * i..8 * i + 8];
      MaskedWords(k, data, i, little);
      StoreWord(output, 8 * i, XorWord(InMemory(input[8 * i..8 * i + 8], little), k), little);
      assert output[..8 * i + 8] == output[..8 * i] + output[8 * i..8 * i + 8];
      i := i + 1;
    }
    assert data[..8 * n] == data;
  }

  lemma ByteKeyOctet(k: Word, n: nat, i: nat, little: bool)
    requires Periodic(k) && i < 8
    ensures InMemory(k, little)[i] == KeyOctets(k, little)[(8 * n + i) % 4]
  {
    hide KeyOctets, Periodic, InMemory;
    PeriodicWord(k, i, little);
    ModFour(n, i);
  }

  lemma KeyAfterWords(k: Word, n: nat, l: nat, little: bool)
    requires Periodic(k) && l < 8
    ensures Periodic(CircshiftPreparedKey(k, l, little))
    ensures KeyOctets(CircshiftPreparedKey(k, l, little), little) == Rotate(KeyOctets(k, little), 8 * n + l)
  {
    hide KeyOctets, CircshiftPreparedKey, Periodic, Rotate;
    CircshiftRotates(k, l, little);
    RotateMod(KeyOctets(k, little), l);
    RotateMod(KeyOctets(k, little), 8 * n + l);
    ModFour(n, l);
  }

  lemma ModFour(n: nat, i: nat)
    ensures (8 * n + i) % 4 == i % 4
  {
  }

  /** The octets after the whole words, masked with octets given in advance. */
  method MaskRest(input: array<byte>, output: array<byte>, start: nat, l: nat, octets: seq<byte>, key: seq<byte>,
                  ghost data: seq<byte>)
    requires |key| == 4 && |octets| == 8 && l < 8 && start + l <= input.Length && start + l <= output.Length
    requires |data| == start + l && data[start..] == input[start..start + l]
    requires output[..start] == Masked(key, data[..start])
    requires forall i :: 0 <= i < l ==> octets[i] == key[(start + i) % 4]
    modifies output
    ensures output[..start + l] == Masked(key, data)
    ensures forall j :: start + l <= j < output.Length ==> output[j] == old(output[j])
  {
    hide Masked;
    var i := 0;
    while i < l
      invariant 0 <= i <= l
      invariant output[..start + i] == Masked(key, data[..start + i])
      invariant forall j :: start + i <= j < output.Length ==> output[j] == old(output[j])
      invariant forall j :: start + i <= j < start + l ==> input[j] == data[j]
    {
      MaskedSnoc(key, data, start + i);
      output[start + i] := XorByte(input[start + i], octets[i]);
      i := i + 1;
    }
    assert data[..start + l] == data;
  }

  /** word_mask_circ: whole words first, the rest octet by octet with the octets of the prepared key. */
  method WordMaskCirc(input: array<byte>, output: array<byte>, length: nat, k: Word, little: bool)
    returns (next: Word)
    requires Periodic(k) && length <= input.Length && length <= output.Length
    modifies output
    ensures output[..length] == Masked(KeyOctets(k, little), old(input[..length]))
    ensures forall j :: length <= j < output.Length ==> output[j] == old(output[j])
    ensures Periodic(next) && KeyOctets(next, little) == Rotate(KeyOctets(k, little), length)
  {
    hide Masked, KeyOctets, CircshiftPreparedKey, Periodic, Rotate, InMemory;
    ghost var data := input[..length];
    var n := length / 8;
    var l := length - n * 8;
    MaskWords(input, output, n, k, little);
    assert data[..8 * n] == old(input[..8 * n]);
    forall i | 0 <= i < l ensures InMemory(k, little)[i] == KeyOctets(k, little)[(8 * n + i) % 4] {
      ByteKeyOctet(k, n, i, little);
    }
    MaskRest(input, output, 8 * n, l, InMemory(k, little), KeyOctets(k, little), data);
    KeyAfterWords(k, n, l, little);
    next := CircshiftPreparedKey(k, l, little);
  }

  /** word_mask_exact: whole words first, the rest octet by octet with the masking key. */
  method WordMaskExact(input: array<byte>, output: array<byte>, length: nat, key: seq<byte>, little: bool)
    requires |key| == 4 && length <= input.Length && length <= output.Length
    modifies output
    ensures output[..length] == Masked(key, old(input[..length]))
    ensures forall j :: length <= j < output.Length ==> output[j] == old(output[j])
  {
    hide Masked, KeyOctets, PrepareMaskingKey, Periodic;
    ghost var data := input[..length];
    var preparedKey := PrepareMaskingKey(key, little);
    PreparedKeyIsPeriodic(key, little);
    var n := length / 8;
    MaskWords(input, output, n, preparedKey, little);
    assert data[..8 * n] == old(input[..8 * n]);
    var i := n * 8;
    while i < length
      invariant 8 * n <= i <= length
      invariant output[..i] == Masked(key, data[..i])
      invariant forall j :: i <= j < output.Length ==> output[j] == old(output[j])
      invariant forall j :: i <= j < input.Length ==> input[j] == old(input[j])
    {
      MaskedSnoc(key, data, i);
      output[i] := XorByte(input[i], key[i % 4]);
      i := i + 1;
    }
    assert data[..length] == data;
  }
}
