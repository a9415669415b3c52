/** Base64 as in section 4 of RFC 4648, three octets to four characters. */
module Base64 {
  import opened Bytes

  const PAD: byte := 61

  // ---------- the alphabet ----------

  function Letters(first: nat, n: nat): (s: seq<byte>)
    requires first + n <= 256
    ensures |s| == n && forall i :: 0 <= i < n ==> Val(s[i]) == first + i
  {
    if n == 0 then [] else Letters(first, n - 1) + [ToByte(first + n - 1)]
  }

  /** A to Z, a to z, 0 to 9, + and /. */
  const ALPHABET: seq<byte> := Letters(65, 26) + Letters(97, 26) + Letters(48, 10) + [43, 47]

  predicate IsBase64(c: byte) {
    c == 43 || (47 <= c <= 57) || (65 <= c <= 90) || (97 <= c <= 122)
  }

  lemma AlphabetAt(i: nat)
    requires i < 64
    ensures |ALPHABET| == 64
    ensures Val(ALPHABET[i]) == if i < 26 then 65 + i else if i < 52 then 71 + i else if i < 62 then i - 4
                                else if i == 62 then 43 else 47
  {
    var upper, lower, digits := Letters(65, 26), Letters(97, 26), Letters(48, 10);
    if i < 26 {
      assert ALPHABET[i] == upper[i];
    } else if i < 52 {
      assert ALPHABET[i] == lower[i - 26];
    } else if i < 62 {
      assert ALPHABET[i] == digits[i - 52];
    }
  }

  /** Where a character first occurs from a position on, or the length if it does not. */
  function Find(table: seq<byte>, c: byte, from: nat): (n: nat)
    requires from <= |table|
    ensures from <= n <= |table| && (n < |table| ==> table[n] == c) && forall i :: from <= i < n ==> table[i] != c
    decreases |table| - from
  {
    if from == |table| || table[from] == c then from else Find(table, c, from + 1)
  }

  function CharOf(v: byte): byte
    requires v < 64
  {
    AlphabetAt(0);
    ValBelow(v, 64);
    ALPHABET[Val(v)]
  }

  /** The position of a character as an octet; the value for a character outside the alphabet is 255. */
  function ValueOf(c: byte): byte {
    AlphabetAt(0);
    var n := Find(ALPHABET, c, 0);
    if n < 64 then ToByte(n) else 0xFF
  }

  lemma ValBelow(v: byte, bound: byte)
    ensures v < bound <==> Val(v) < Val(bound)
  {
  }

  /** Each character stands for the value it was chosen for. */
  lemma CharacterRoundTrip(v: byte)
    requires v < 64
    ensures ValueOf(CharOf(v)) == v && IsBase64(CharOf(v)) && CharOf(v) != PAD
  {
    hide Letters, Find;
    ValBelow(v, 64);
    AlphabetAt(Val(v));
    var c := CharOf(v);
    var n := Find(ALPHABET, c, 0);
    if n < 64 { AlphabetAt(n); }
    ToByteOfVal(v);
    CharRanges(c);
  }

  lemma CharRanges(c: byte)
    ensures IsBase64(c) <==> Val(c) == 43 || 47 <= Val(c) <= 57 || 65 <= Val(c) <= 90 || 97 <= Val(c) <= 122
    ensures c == PAD <==> Val(c) == 61
  {
  }

  // ---------- groups ----------

  /** Three octets as four values of six bits. */
  function Sextets(a: byte, b: byte, c: byte): (byte, byte, byte, byte) {
    ((a & 0xfc) >> 2, ((a & 0x03) << 4) + ((b & 0xf0) >> 4), ((b & 0x0f) << 2) + ((c & 0xc0) >> 6), c & 0x3f)
  }

  /** Four values as three octets, high bits dropped. */
  function FromSextets(w: byte, x: byte, y: byte, z: byte): (byte, byte, byte) {
    ((w << 2) + ((x & 0x30) >> 4), ((x & 0xf) << 4) + ((y & 0x3c) >> 2), ((y & 0x3) << 6) + z)
  }

  lemma GroupRoundTrip(a: byte, b: byte, c: byte)
    ensures var (w, x, y, z) := Sextets(a, b, c);
            w < 64 && x < 64 && y < 64 && z < 64 && FromSextets(w, x, y, z) == (a, b, c)
  {
  }

  /** The four values are the 24 bits of the three octets, in order. */
  lemma SameBits(a: byte, b: byte, c: byte)
    ensures var (w, x, y, z) := Sextets(a, b, c);
            (a as bv24 << 16) | (b as bv24 << 8) | c as bv24
            == (w as bv24 << 18) | (x as bv24 << 12) | (y as bv24 << 6) | z as bv24
  {
  }

  /** The octets of an incomplete group do not depend on the values that are missing. */
  lemma FillerDoesNotMatter(w: byte, x: byte, y: byte, y': byte, z: byte, z': byte)
    ensures FromSextets(w, x, y, z).0 == FromSextets(w, x, y', z').0
    ensures FromSextets(w, x, y, z).1 == FromSextets(w, x, y, z').1
  {
  }

  function Characters(a: byte, b: byte, c: byte): (s: seq<byte>)
    ensures |s| == 4
  {
    GroupRoundTrip(a, b, c);
    var (w, x, y, z) := Sextets(a, b, c);
    [CharOf(w), CharOf(x), CharOf(y), CharOf(z)]
  }

  // ---------- encoding and decoding ----------

  function Encoded(x: seq<byte>): seq<byte>
    decreases |x|
  {
    if |x| == 0 then []
    else if |x| == 1 then Characters(x[0], 0, 0)[..2] + [PAD, PAD]
    else if |x| == 2 then Characters(x[0], x[1], 0)[..3] + [PAD]
    else Characters(x[0], x[1], x[2]) + Encoded(x[3..])
  }

  /** The octets of characters of the alphabet; an incomplete group gives one octet less than it has characters. */
  function FromCharacters(t: seq<byte>): seq<byte>
    decreases |t|
  {
    if |t| < 4 then Leftover(t)
    else
      var (a, b, c) := FromSextets(ValueOf(t[0]), ValueOf(t[1]), ValueOf(t[2]), ValueOf(t[3]));
      [a, b, c] + FromCharacters(t[4..])
  }

  function Leftover(t: seq<byte>): seq<byte>
    requires |t| < 4
  {
    if |t| < 2 then []
    else if |t| == 2 then [FromSextets(ValueOf(t[0]), ValueOf(t[1]), ValueOf(0), ValueOf(0)).0]
    else var (a, b, _) := FromSextets(ValueOf(t[0]), ValueOf(t[1]), ValueOf(t[2]), ValueOf(0)); [a, b]
  }

  /** The characters before the first one that is not of the alphabet. */
  function Alphabetic(t: seq<byte>): (p: seq<byte>)
    ensures p <= t && (forall c :: c in p ==> IsBase64(c))
    ensures |p| < |t| ==> !IsBase64(t[|p|])
  {
    if t == [] || !IsBase64(t[0]) then [] else [t[0]] + Alphabetic(t[1..])
  }

  function Decoded(t: seq<byte>): seq<byte> { FromCharacters(Alphabetic(t)) }

  /** The vectors of section 10 of RFC 4648 for f, fo and foo. */
  lemma KnownVectors()
    ensures Encoded([102]) == [90, 103, 61, 61]
    ensures Encoded([102, 111]) == [90, 109, 56, 61]
    ensures Encoded([102, 111, 111]) == [90, 109, 57, 118]
  {
    hide CharOf, Sextets;
    Bits();
    Letter(25, 90);
    Letter(32, 103);
    Letter(38, 109);
    Letter(60, 56);
    Letter(61, 57);
    Letter(47, 118);
    assert [102, 111, 111][3..] == [];
  }

  lemma Bits()
    ensures Sextets(102, 0, 0) == (25, 32, 0, 0) && Sextets(102, 111, 0) == (25, 38, 60, 0)
    ensures Sextets(102, 111, 111) == (25, 38, 61, 47)
  {
  }

  lemma Letter(v: byte, c: byte)
    requires v < 64
    requires Val(c) == if v < 26 then 65 + Val(v) else if v < 52 then 71 + Val(v) else Val(v) - 4
    requires v < 62
    ensures CharOf(v) == c
  {
    hide Letters;
    ValBelow(v, 64);
    ValBelow(v, 62);
    ValBelow(v, 52);
    ValBelow(v, 26);
    AlphabetAt(Val(v));
    ToByteOfVal(c);
    ToByteOfVal(CharOf(v));
  }

  lemma {:induction false} EncodedLength(x: seq<byte>)
    ensures |Encoded(x)| == 4 * ((|x| + 2) / 3)
    decreases |x|
  {
    hide Characters;
    if |x| > 2 {
      EncodedLength(x[3..]);
      Thirds(|x|);
    }
  }

  lemma Thirds(n: nat)
    requires n >= 3
    ensures (n + 2) / 3 == (n - 3 + 2) / 3 + 1
  {
  }

  lemma {:induction false} AlphabeticPrefix(p: seq<byte>, t: seq<byte>)
    requires (forall c :: c in p ==> IsBase64(c)) && (t != [] ==> !IsBase64(t[0]))
    ensures Alphabetic(p + t) == p
  {
    hide IsBase64;
    if p == [] {
      assert p + t == t;
    } else {
      assert p[0] in p && (p + t)[0] == p[0] && (p + t)[1..] == p[1..] + t;
      AlphabeticPrefix(p[1..], t);
    }
  }

  lemma AlphabeticConcat(p: seq<byte>, t: seq<byte>)
    requires forall c :: c in p ==> IsBase64(c)
    ensures Alphabetic(p + t) == p + Alphabetic(t)
  {
    var q := Alphabetic(t);
    assert p + t == (p + q) + t[|q|..];
    AlphabeticPrefix(p + q, t[|q|..]);
  }

  /** The characters of a group decode to the group. */
  lemma CharactersRoundTrip(a: byte, b: byte, c: byte)
    ensures var t := Characters(a, b, c);
            && (forall k :: k in t ==> IsBase64(k) && k != PAD)
            && FromSextets(ValueOf(t[0]), ValueOf(t[1]), ValueOf(t[2]), ValueOf(t[3])) == (a, b, c)
  {
    hide ValueOf, CharOf, FromSextets, Sextets, IsBase64;
    GroupRoundTrip(a, b, c);
    var (w, x, y, z) := Sextets(a, b, c);
    CharacterRoundTrip(w);
    CharacterRoundTrip(x);
    CharacterRoundTrip(y);
    CharacterRoundTrip(z);
  }

  lemma PadIsNotAlphabetic()
    ensures !IsBase64(PAD)
  {
  }

  /** Every octet string is decoded from its encoding. */
  lemma {:induction false} RoundTrip(x: seq<byte>)
    ensures Decoded(Encoded(x)) == x
    decreases |x|
  {
    hide ValueOf, FromSextets, IsBase64, Characters, Alphabetic;
    PadIsNotAlphabetic();
    var a, b, c := if |x| > 0 then x[0] else 0, if |x| > 1 then x[1] else 0, if |x| > 2 then x[2] else 0;
    var t := Characters(a, b, c);
    CharactersRoundTrip(a, b, c);
    if |x| == 0 {
      AlphabeticPrefix(x, x);
      assert x + x == x;
    } else if |x| == 1 {
      AlphabeticPrefix(t[..2], [PAD, PAD]);
      FillerDoesNotMatter(ValueOf(t[0]), ValueOf(t[1]), ValueOf(t[2]), ValueOf(0), ValueOf(t[3]), ValueOf(0));
    } else if |x| == 2 {
      AlphabeticPrefix(t[..3], [PAD]);
      FillerDoesNotMatter(ValueOf(t[0]), ValueOf(t[1]), ValueOf(t[2]), ValueOf(0), ValueOf(t[3]), ValueOf(0));
      FillerDoesNotMatter(ValueOf(t[0]), ValueOf(t[1]), ValueOf(t[2]), ValueOf(t[2]), ValueOf(t[3]), ValueOf(0));
    } else {
      AlphabeticConcat(t, Encoded(x[3..]));
      RoundTrip(x[3..]);
      var rest := Alphabetic(Encoded(x[3..]));
      assert (t + rest)[4..] == rest;
      assert [a, b, c] + x[3..] == x;
    }
  }

  // ---------- the loops ----------

  method EmitGroup(group: array<byte>) returns (s: seq<byte>)
    requires group.Length == 3
    ensures s == Characters(group[0], group[1], group[2])
  {
    GroupRoundTrip(group[0], group[1], group[2]);
    var (w, x, y, z) := Sextets(group[0], group[1], group[2]);
    s := [CharOf(w), CharOf(x), CharOf(y), CharOf(z)];
  }

  /** After n whole groups encoding starts afresh. */
  lemma {:induction false} EncodedConcat(x: seq<byte>, y: seq<byte>, n: nat)
    requires |x| == 3 * n
    ensures Encoded(x + y) == Encoded(x) + Encoded(y)
    decreases n
  {
    hide Characters;
    if n == 0 {
      assert x + y == y;
    } else {
      EncodedConcat(x[3..], y, n - 1);
      assert (x + y)[3..] == x[3..] + y;
    }
  }

  lemma OneGroup(x: seq<byte>)
    requires |x| == 3
    ensures Encoded(x) == Characters(x[0], x[1], x[2])
  {
    hide Characters;
    assert x[3..] == [];
    NothingEncoded();
    assert Characters(x[0], x[1], x[2]) + [] == Characters(x[0], x[1], x[2]);
  }

  /** The characters and the padding of an incomplete group. */
  method EmitRest(group: array<byte>, i: nat) returns (ret: seq<byte>)
    requires group.Length == 3 && 0 < i < 3
    modifies group
    ensures ret == Encoded(old(group[..i]))
  {
    hide Characters;
    for j := i to 3
      invariant group[..i] == old(group[..i]) && forall m :: i <= m < j ==> group[m] == 0
    {
      group[j] := 0;
    }
    var s := EmitGroup(group);
    ret := s[..i + 1];
    ghost var x := old(group[..i]);
    assert group[0] == x[0] && (i == 2 ==> group[1] == x[1]);
    var pad := i;
    while pad < 3
      invariant i <= pad <= 3 && ret == s[..i + 1] + if pad == i then [] else if pad == i + 1 then [PAD] else [PAD, PAD]
    {
      ret := ret + [PAD];
      pad := pad + 1;
    }
  }

  method Encode(input: seq<byte>) returns (ret: seq<byte>)
    ensures ret == Encoded(input)
  {
    hide Characters, Encoded;
    var group := new byte[3];
    var i, k := 0, 0;
    ghost var n := 0;
    ret := [];
    assert Encoded([]) == [] by { NothingEncoded(); }
    while k < |input|
      invariant 0 <= k <= |input| && 0 <= i < 3 && k == 3 * n + i
      invariant ret == Encoded(input[..3 * n]) && group[..i] == input[3 * n..k]
    {
      group[i] := input[k];
      i, k := i + 1, k + 1;
      assert group[..i] == input[3 * n..k];
      if i == 3 {
        var s := EmitGroup(group);
        ghost var x := input[3 * n..k];
        assert x == group[..3] && x[0] == group[0] && x[1] == group[1] && x[2] == group[2];
        EncodedConcat(input[..3 * n], x, n);
        assert input[..3 * n] + x == input[..k];
        OneGroup(x);
        ret := ret + s;
        i, n := 0, n + 1;
      }
    }
    EncodedConcat(input[..3 * n], input[3 * n..], n);
    assert input[..3 * n] + input[3 * n..] == input;
    if i > 0 {
      assert group[..i] == input[3 * n..];
      var s := EmitRest(group, i);
      ret := ret + s;
    } else {
      assert input[3 * n..] == [];
    }
  }

  lemma NothingEncoded()
    ensures Encoded([]) == []
  {
  }

  lemma WholeGroup(t: seq<byte>)
    requires |t| >= 4
    ensures FromCharacters(t) == FromCharacters(t[..4]) + FromCharacters(t[4..])
  {
    hide FromSextets, ValueOf;
    OneQuad(t[..4]);
  }

  lemma {:induction false} FromCharactersConcat(t: seq<byte>, u: seq<byte>, n: nat)
    requires |t| == 4 * n
    ensures FromCharacters(t + u) == FromCharacters(t) + FromCharacters(u)
    decreases n
  {
    hide FromSextets, ValueOf, FromCharacters;
    if n == 0 {
      OnlyLeftover([]);
      assert t + u == u;
    } else {
      FromCharactersConcat(t[4..], u, n - 1);
      assert (t + u)[..4] == t[..4] && (t + u)[4..] == t[4..] + u;
      WholeGroup(t);
      WholeGroup(t + u);
    }
  }

  lemma OneQuad(t: seq<byte>)
    requires |t| == 4
    ensures var (a, b, c) := FromSextets(ValueOf(t[0]), ValueOf(t[1]), ValueOf(t[2]), ValueOf(t[3]));
            FromCharacters(t) == [a, b, c]
  {
    hide FromSextets, ValueOf;
    assert FromCharacters(t[4..]) == [];
  }

  lemma OnlyLeftover(t: seq<byte>)
    requires |t| < 4
    ensures FromCharacters(t) == Leftover(t)
  {
  }

  /** The octets of a whole or incomplete group of characters. */
  method TakeGroup(quad: array<byte>) returns (s: seq<byte>)
    requires quad.Length == 4
    ensures s == FromCharacters(quad[..])
  {
    hide FromSextets, ValueOf;
    OneQuad(quad[..]);
    var (a, b, c) := FromSextets(ValueOf(quad[0]), ValueOf(quad[1]), ValueOf(quad[2]), ValueOf(quad[3]));
    s := [a, b, c];
  }

  method TakeRest(quad: array<byte>, i: nat) returns (s: seq<byte>)
    requires quad.Length == 4 && 0 < i < 4
    modifies quad
    ensures s == FromCharacters(old(quad[..i]))
  {
    hide FromSextets, ValueOf, FromCharacters;
    for j := i to 4
      invariant quad[..i] == old(quad[..i]) && forall m :: i <= m < j ==> quad[m] == 0
    {
      quad[j] := 0;
    }
    ghost var t := old(quad[..i]);
    OnlyLeftover(t);
    assert quad[0] == t[0] && (i > 1 ==> quad[1] == t[1]) && (i > 2 ==> quad[2] == t[2]);
    var (a, b, c) := FromSextets(ValueOf(quad[0]), ValueOf(quad[1]), ValueOf(quad[2]), ValueOf(quad[3]));
    s := [a, b, c][..i - 1];
  }

  /** One more whole group of characters. */
  lemma NextGroup(input: seq<byte>, n: nat, t: seq<byte>)
    requires 4 * n + 4 <= |input| && t == input[4 * n..4 * n + 4]
    ensures FromCharacters(input[..4 * n + 4]) == FromCharacters(input[..4 * n]) + FromCharacters(t)
  {
    hide FromCharacters;
    FromCharactersConcat(input[..4 * n], t, n);
    assert input[..4 * n] + t == input[..4 * n + 4];
  }

  /** Where the loop ends is where the alphabetic characters end. */
  lemma AlphabeticEnd(input: seq<byte>, k: nat)
    requires k <= |input| && (forall j :: 0 <= j < k ==> IsBase64(input[j])) && (k < |input| ==> !IsBase64(input[k]))
    ensures Alphabetic(input) == input[..k]
  {
    hide IsBase64;
    AlphabeticPrefix(input[..k], input[k..]);
    assert input[..k] + input[k..] == input;
  }

  method Decode(input: seq<byte>) returns (ret: seq<byte>)
    ensures ret == Decoded(input)
  {
    hide IsBase64, Alphabetic, FromCharacters;
    var quad := new byte[4];
    var i, k := 0, 0;
    ghost var n := 0;
    ret := [];
    PadIsNotAlphabetic();
    OnlyLeftover([]);
    while k < |input| && input[k] != PAD && IsBase64(input[k])
      invariant 0 <= k <= |input| && 0 <= i < 4 && k == 4 * n + i
      invariant forall j :: 0 <= j < k ==> IsBase64(input[j])
      invariant ret == FromCharacters(input[..4 * n]) && forall j :: 0 <= j < i ==> quad[j] == input[4 * n + j]
    {
      quad[i] := input[k];
      i, k := i + 1, k + 1;
      if i == 4 {
        assert quad[..] == input[4 * n..4 * n + 4];
        NextGroup(input, n, quad[..]);
        var s := TakeGroup(quad);
        ret := ret + s;
        i, n := 0, n + 1;
      }
    }
    AlphabeticEnd(input, k);
    FromCharactersConcat(input[..4 * n], input[4 * n..k], n);
    assert input[..4 * n] + input[4 * n..k] == input[..k];
    if i > 0 {
      assert quad[..i] == input[4 * n..k];
      var s := TakeRest(quad, i);
      ret := ret + s;
    } else {
      assert input[4 * n..k] == [];
    }
  }
}
