/** Octets, unsigned integer values of octets, and big-endian integers of any width. */
module Bytes {
  type byte = bv8

  datatype Option<+T> = None | Some(value: T)

  const TWO_64: nat := 0x1_0000_0000_0000_0000

  function Val(b: byte): (n: nat)
    ensures n < 256
  {
    b as int
  }

  lemma Successor(b: byte)
    requires Val(b) < 255
    ensures Val(b + 1) == Val(b) + 1
  {
  }

  lemma {:induction false} CastIsExact(n: nat)
    requires n < 256
    ensures Val(n as byte) == n
  {
    if n > 0 {
      CastIsExact(n - 1);
      Successor((n - 1) as byte);
      var b := ((n - 1) as byte) + 1;
      assert b as int == n;
      assert n as byte == b;
    }
  }

  function ToByte(n: nat): (b: byte)
    requires n < 256
    ensures Val(b) == n
  {
    CastIsExact(n);
    n as byte
  }

  lemma ToByteOfVal(b: byte)
    ensures ToByte(Val(b)) == b
  {
  }

  function Pow256(k: nat): (n: nat)
    ensures n > 0
  {
    if k == 0 then 1 else 256 * Pow256(k - 1)
  }

  lemma Pow256Widths()
    ensures Pow256(2) == 0x1_0000
    ensures Pow256(8) == TWO_64
  {
    assert Pow256(2) == 256 * 256;
    assert Pow256(4) == 0x1_0000_0000;
    assert Pow256(6) == 0x1_0000_0000_0000;
  }

  /** The k octets of n in network order. */
  function BigEndian(n: nat, k: nat): (s: seq<byte>)
    ensures |s| == k
  {
    if k == 0 then [] else BigEndian(n / 256, k - 1) + [ToByte(n % 256)]
  }

  /** The unsigned integer whose network-order octets are s. */
  function FromBigEndian(s: seq<byte>): (n: nat)
    ensures n < Pow256(|s|)
  {
    if s == [] then 0 else 256 * FromBigEndian(s[..|s| - 1]) + Val(s[|s| - 1])
  }

  /** The first of two octets counts 256 times. */
  lemma NetworkOrder(a: byte, b: byte)
    ensures FromBigEndian([a, b]) == 256 * Val(a) + Val(b)
  {
    assert [a, b][..1] == [a] && [a][..0] == [];
    assert FromBigEndian([]) == 0 && FromBigEndian([a]) == Val(a);
  }

  lemma LastOctet(n: nat, k: nat)
    requires k > 0
    ensures BigEndian(n, k) == BigEndian(n / 256, k - 1) + [ToByte(n % 256)]
  {
  }

  lemma FromBigEndianSnoc(s: seq<byte>, b: byte)
    ensures FromBigEndian(s + [b]) == 256 * FromBigEndian(s) + Val(b)
  {
    assert (s + [b])[..|s|] == s;
  }

  lemma DivideBy256(n: nat, bound: nat)
    requires n < 256 * bound
    ensures n / 256 < bound && 256 * (n / 256) + n % 256 == n
  {
  }

  lemma {:induction false} FromBigEndianOfBigEndian(n: nat, k: nat)
    requires n < Pow256(k)
    ensures FromBigEndian(BigEndian(n, k)) == n
    decreases k
  {
    if k > 0 {
      DivideBy256(n, Pow256(k - 1));
      FromBigEndianOfBigEndian(n / 256, k - 1);
      hide BigEndian, FromBigEndian, Pow256;
      LastOctet(n, k);
      FromBigEndianSnoc(BigEndian(n / 256, k - 1), ToByte(n % 256));
    }
  }

  lemma QuotientAndRemainder(high: nat, low: nat)
    requires low < 256
    ensures (256 * high + low) / 256 == high && (256 * high + low) % 256 == low
  {
  }

  lemma {:induction false} BigEndianOfFromBigEndian(s: seq<byte>)
    ensures BigEndian(FromBigEndian(s), |s|) == s
    decreases |s|
  {
    if s != [] {
      var high, low := s[..|s| - 1], s[|s| - 1];
      assert s == high + [low];
      BigEndianOfFromBigEndian(high);
      OneMoreOctet(high, low);
    }
  }

  lemma OneMoreOctet(high: seq<byte>, low: byte)
    requires BigEndian(FromBigEndian(high), |high|) == high
    ensures BigEndian(FromBigEndian(high + [low]), |high| + 1) == high + [low]
  {
    hide *;
    FromBigEndianSnoc(high, low);
    QuotientAndRemainder(FromBigEndian(high), Val(low));
    JoinOctet(FromBigEndian(high + [low]), FromBigEndian(high), low, |high| + 1);
  }

  lemma JoinOctet(n: nat, high: nat, low: byte, k: nat)
    requires n / 256 == high && n % 256 == Val(low) && k > 0
    ensures BigEndian(n, k) == BigEndian(high, k - 1) + [low]
  {
    hide BigEndian, Val;
    LastOctet(n, k);
    ToByteOfVal(low);
  }

  function Zeros(n: nat): (z: seq<byte>)
    ensures |z| == n && forall i :: 0 <= i < n ==> z[i] == 0
  {
    seq(n, _ => 0)
  }

  lemma Associative<T>(a: seq<T>, b: seq<T>, c: seq<T>)
    ensures a + b + c == a + (b + c)
  {
  }

  function Flatten<T>(parts: seq<seq<T>>): seq<T> {
    if parts == [] then [] else parts[0] + Flatten(parts[1..])
  }

  lemma {:induction false} FlattenAppend<T>(a: seq<seq<T>>, b: seq<seq<T>>)
    ensures Flatten(a + b) == Flatten(a) + Flatten(b)
  {
    if a == [] {
      assert a + b == b;
    } else {
      FlattenAppend(a[1..], b);
      assert (a + b)[0] == a[0] && (a + b)[1..] == a[1..] + b;
      Associative(a[0], Flatten(a[1..]), Flatten(b));
    }
  }

  lemma FlattenSnoc<T>(a: seq<seq<T>>, x: seq<T>)
    ensures Flatten(a + [x]) == Flatten(a) + x
  {
    FlattenAppend(a, [x]);
    assert Flatten([x]) == x + Flatten<T>([]) == x;
  }
}
