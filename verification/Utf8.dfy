/**
 The table-driven UTF-8 validator: its lookup table, one decoding step, the streaming
 validator that carries its state across chunks, and the grammar of RFC 3629, section 4,
 that the table has to recognise.
 */
module Utf8 {
  import opened Bytes

  const ACCEPT: nat := 0
  const REJECT: nat := 1

  /** The lookup table, 16 entries to a row: the classes of the 256 octets, then nine rows of transitions. */
  const TABLE: seq<seq<nat>> := [
    [0,0,0,0,0,0,0,0,0,0,0,0,0,0,0,0],
    [0,0,0,0,0,0,0,0,0,0,0,0,0,0,0,0],
    [0,0,0,0,0,0,0,0,0,0,0,0,0,0,0,0],
    [0,0,0,0,0,0,0,0,0,0,0,0,0,0,0,0],
    [0,0,0,0,0,0,0,0,0,0,0,0,0,0,0,0],
    [0,0,0,0,0,0,0,0,0,0,0,0,0,0,0,0],
    [0,0,0,0,0,0,0,0,0,0,0,0,0,0,0,0],
    [0,0,0,0,0,0,0,0,0,0,0,0,0,0,0,0],
    [1,1,1,1,1,1,1,1,1,1,1,1,1,1,1,1],
    [9,9,9,9,9,9,9,9,9,9,9,9,9,9,9,9],
    [7,7,7,7,7,7,7,7,7,7,7,7,7,7,7,7],
    [7,7,7,7,7,7,7,7,7,7,7,7,7,7,7,7],
    [8,8,2,2,2,2,2,2,2,2,2,2,2,2,2,2],
    [2,2,2,2,2,2,2,2,2,2,2,2,2,2,2,2],
    [0xa,0x3,0x3,0x3,0x3,0x3,0x3,0x3,0x3,0x3,0x3,0x3,0x3,0x4,0x3,0x3],
    [0xb,0x6,0x6,0x6,0x5,0x8,0x8,0x8,0x8,0x8,0x8,0x8,0x8,0x8,0x8,0x8],
    [0x0,0x1,0x2,0x3,0x5,0x8,0x7,0x1,0x1,0x1,0x4,0x6,0x1,0x1,0x1,0x1],
    [1,1,1,1,1,1,1,1,1,1,1,1,1,1,1,1],
    [1,0,1,1,1,1,1,0,1,0,1,1,1,1,1,1],
    [1,2,1,1,1,1,1,2,1,2,1,1,1,1,1,1],
    [1,1,1,1,1,1,1,2,1,1,1,1,1,1,1,1],
    [1,2,1,1,1,1,1,1,1,2,1,1,1,1,1,1],
    [1,1,1,1,1,1,1,3,1,3,1,1,1,1,1,1],
    [1,3,1,1,1,1,1,3,1,3,1,1,1,1,1,1],
    [1,3,1,1,1,1,1,1,1,1,1,1,1,1,1,1]]

  lemma TableShape()
    ensures |TABLE| == 25 && forall i :: 0 <= i < 25 ==> |TABLE[i]| == 16
  {
  }

  function Utf8d(i: nat): nat
    requires i < 400
  {
    TableShape();
    TABLE[i / 16][i % 16]
  }

  /** The octet classes, as ranges. */
  function ClassOf(b: nat): nat
    requires b < 256
  {
    if b < 0x80 then 0 else if b < 0x90 then 1 else if b < 0xa0 then 9 else if b < 0xc0 then 7
    else if b < 0xc2 then 8 else if b < 0xe0 then 2
    else if b == 0xe0 then 10 else if b == 0xed then 4 else if b < 0xf0 then 3
    else if b == 0xf0 then 11 else if b < 0xf4 then 6 else if b == 0xf4 then 5 else 8
  }

  lemma TableClassesLow(b: nat)
    requires b < 0xc0
    ensures Utf8d(b) == ClassOf(b)
  {
  }

  lemma TableClassesHigh(b: nat)
    requires 0xc0 <= b < 256
    ensures Utf8d(b) == ClassOf(b)
  {
  }

  /** The transitions, as a case distinction. */
  function Successor(state: nat, class_: nat): nat
    requires state < 9 && class_ < 12
  {
    match state
    case 0 =>
      (match class_
       case 0 => 0 case 2 => 2 case 3 => 3 case 4 => 5 case 5 => 8 case 6 => 7 case 10 => 4 case 11 => 6
       case _ => 1)
    case 2 => if class_ in {1, 7, 9} then 0 else 1
    case 3 => if class_ in {1, 7, 9} then 2 else 1
    case 4 => if class_ == 7 then 2 else 1
    case 5 => if class_ in {1, 9} then 2 else 1
    case 6 => if class_ in {7, 9} then 3 else 1
    case 7 => if class_ in {1, 7, 9} then 3 else 1
    case 8 => if class_ == 1 then 3 else 1
    case _ => 1
  }

  lemma TableTransitionsLow(state: nat, class_: nat)
    requires state < 4 && class_ < 12
    ensures Utf8d(256 + state * 16 + class_) == Successor(state, class_)
  {
  }

  lemma TableTransitionsMid(state: nat, class_: nat)
    requires 4 <= state < 7 && class_ < 12
    ensures Utf8d(256 + state * 16 + class_) == Successor(state, class_)
  {
  }

  lemma TableTransitionsHigh(state: nat, class_: nat)
    requires 7 <= state < 9 && class_ < 12
    ensures Utf8d(256 + state * 16 + class_) == Successor(state, class_)
  {
  }

  lemma TableClasses(b: nat)
    requires b < 256
    ensures Utf8d(b) == ClassOf(b) < 12
  {
    if b < 0xc0 { TableClassesLow(b); } else { TableClassesHigh(b); }
  }

  lemma TableTransitions(state: nat, class_: nat)
    requires state < 9 && class_ < 12
    ensures Utf8d(256 + state * 16 + class_) == Successor(state, class_) < 9
  {
    if state < 4 {
      TableTransitionsLow(state, class_);
    } else if state < 7 {
      TableTransitionsMid(state, class_);
    } else {
      TableTransitionsHigh(state, class_);
    }
  }

  /** The two words a decoder carries. */
  datatype Dfa = Dfa(state: nat, codep: bv32)

  type Decoder = d: Dfa | d.state < 9 witness Dfa(0, 0)

  const START: Decoder := Dfa(ACCEPT, 0)

  function LeadBits(class_: nat, b: byte): bv32
    requires class_ < 12
  {
    (0xff >> class_) & (b as bv32)
  }

  /** What one table-driven decoding step computes, without the table. */
  function Step(d: Decoder, b: byte): Decoder {
    var class_ := ClassOf(Val(b));
    Dfa(Successor(d.state, class_),
        if d.state != ACCEPT then ((b & 0x3f) as bv32) | (d.codep << 6) else LeadBits(class_, b))
  }

  function Run(d: Decoder, bs: seq<byte>): Decoder
    decreases |bs|
  {
    if bs == [] then d else Run(Step(d, bs[0]), bs[1..])
  }

  /** Splitting the input across calls changes nothing. */
  lemma {:induction false} RunConcat(d: Decoder, a: seq<byte>, b: seq<byte>)
    ensures Run(d, a + b) == Run(Run(d, a), b)
    decreases |a|
  {
    if a == [] {
      assert a + b == b;
    } else {
      assert (a + b)[0] == a[0] && (a + b)[1..] == a[1..] + b;
      RunConcat(Step(d, a[0]), a[1..], b);
    }
  }

  lemma RunSnoc(d: Decoder, a: seq<byte>, b: byte)
    ensures Run(d, a + [b]) == Step(Run(d, a), b)
  {
    RunConcat(d, a, [b]);
  }

  lemma {:induction false} RejectIsAbsorbing(d: Decoder, bs: seq<byte>)
    requires d.state == REJECT
    ensures Run(d, bs).state == REJECT
    decreases |bs|
  {
    if bs != [] {
      RejectIsAbsorbing(Step(d, bs[0]), bs[1..]);
    }
  }

  // ---------- RFC 3629, section 4 ----------

  predicate Tail(b: byte) { 0x80 <= b <= 0xBF }

  predicate Utf8Char(s: seq<byte>) {
    match |s|
    case 1 => s[0] <= 0x7F
    case 2 => 0xC2 <= s[0] <= 0xDF && Tail(s[1])
    case 3 =>
      && Tail(s[2])
      && ((s[0] == 0xE0 && 0xA0 <= s[1] <= 0xBF) || (0xE1 <= s[0] <= 0xEC && Tail(s[1]))
          || (s[0] == 0xED && 0x80 <= s[1] <= 0x9F) || (0xEE <= s[0] <= 0xEF && Tail(s[1])))
    case 4 =>
      && Tail(s[2]) && Tail(s[3])
      && ((s[0] == 0xF0 && 0x90 <= s[1] <= 0xBF) || (0xF1 <= s[0] <= 0xF3 && Tail(s[1]))
          || (s[0] == 0xF4 && 0x80 <= s[1] <= 0x8F))
    case _ => false
  }

  ghost predicate AllChars(parts: seq<seq<byte>>) {
    forall i :: 0 <= i < |parts| ==> Utf8Char(parts[i])
  }

  /** UTF8-octets: a concatenation of well-formed sequences. */
  ghost predicate WellFormed(s: seq<byte>) {
    exists parts: seq<seq<byte>> :: AllChars(parts) && Flatten(parts) == s
  }

  /** RFC 3629, section 3: the octets of a scalar value. */
  function Encode(v: bv32): seq<byte>
    requires v <= 0x10FFFF
  {
    if v < 0x80 then [(v & 0x7F) as byte]
    else if v < 0x800 then [0xC0 | ((v >> 6) & 0x1F) as byte, 0x80 | (v & 0x3F) as byte]
    else if v < 0x10000 then
      [0xE0 | ((v >> 12) & 0x0F) as byte, 0x80 | ((v >> 6) & 0x3F) as byte, 0x80 | (v & 0x3F) as byte]
    else
      [0xF0 | ((v >> 18) & 0x07) as byte, 0x80 | ((v >> 12) & 0x3F) as byte,
       0x80 | ((v >> 6) & 0x3F) as byte, 0x80 | (v & 0x3F) as byte]
  }

  predicate Scalar(v: bv32) { v <= 0x10FFFF && !(0xD800 <= v <= 0xDFFF) }

  // ---------- what each state means ----------

  /** The decoder state that the first octets of an unfinished character lead to (REJECT if there are none). */
  function StateOf(rest: seq<byte>): nat {
    match |rest|
    case 0 => 0
    case 1 =>
      var a := rest[0];
      if 0xC2 <= a <= 0xDF then 2 else if a == 0xE0 then 4 else if a == 0xED then 5
      else if 0xE1 <= a <= 0xEF then 3 else if a == 0xF0 then 6 else if 0xF1 <= a <= 0xF3 then 7
      else if a == 0xF4 then 8 else 1
    case 2 => SecondState(rest[0], rest[1])
    case 3 => if SecondState(rest[0], rest[1]) == 3 && Tail(rest[2]) then 2 else 1
    case _ => 1
  }

  function SecondState(a: byte, b: byte): nat {
    if (a == 0xE0 && 0xA0 <= b <= 0xBF) || (a == 0xED && 0x80 <= b <= 0x9F)
       || (0xE1 <= a <= 0xEF && a != 0xED && Tail(b)) then 2
    else if (a == 0xF0 && 0x90 <= b <= 0xBF) || (0xF1 <= a <= 0xF3 && Tail(b))
            || (a == 0xF4 && 0x80 <= b <= 0x8F) then 3
    else 1
  }

  /** The code point bits collected from the first octets of a character. */
  function CodeOf(rest: seq<byte>): bv32
    requires 0 < |rest| <= 4
  {
    if |rest| == 1 then LeadBits(ClassOf(Val(rest[0])), rest[0])
    else ((rest[|rest| - 1] & 0x3f) as bv32) | (CodeOf(rest[..|rest| - 1]) << 6)
  }

  /** d is where the decoder stands after whole characters and then rest. */
  predicate Stands(d: Decoder, rest: seq<byte>) {
    && d.state == StateOf(rest) != REJECT
    && (rest != [] ==> |rest| <= 3 && d.codep == CodeOf(rest))
  }

  lemma ClassRanges(b: byte)
    ensures ClassOf(Val(b)) ==
            if b <= 0x7F then 0 else if b <= 0x8F then 1 else if b <= 0x9F then 9 else if b <= 0xBF then 7
            else if b <= 0xC1 then 8 else if b <= 0xDF then 2
            else if b == 0xE0 then 10 else if b == 0xED then 4 else if b <= 0xEF then 3
            else if b == 0xF0 then 11 else if b <= 0xF3 then 6 else if b == 0xF4 then 5 else 8
  {
  }

  lemma FirstByte(d: Decoder, b: byte)
    requires Stands(d, [])
    ensures Step(d, b).state == ACCEPT <==> Utf8Char([b])
    ensures Step(d, b).state != ACCEPT ==> Step(d, b).state == StateOf([b])
  {
    ClassRanges(b);
  }

  lemma SecondByte(d: Decoder, rest: seq<byte>, b: byte)
    requires |rest| == 1 && Stands(d, rest)
    ensures Step(d, b).state == ACCEPT <==> Utf8Char(rest + [b])
    ensures Step(d, b).state != ACCEPT ==> Step(d, b).state == StateOf(rest + [b])
  {
    ClassRanges(b);
  }

  lemma ThirdByte(d: Decoder, rest: seq<byte>, b: byte)
    requires |rest| == 2 && Stands(d, rest)
    ensures Step(d, b).state == ACCEPT <==> Utf8Char(rest + [b])
    ensures Step(d, b).state != ACCEPT ==> Step(d, b).state == StateOf(rest + [b])
  {
    ClassRanges(b);
  }

  lemma FourthByte(d: Decoder, rest: seq<byte>, b: byte)
    requires |rest| == 3 && Stands(d, rest)
    ensures Step(d, b).state == ACCEPT <==> Utf8Char(rest + [b])
    ensures Step(d, b).state != ACCEPT ==> Step(d, b).state == StateOf(rest + [b])
  {
    ClassRanges(b);
  }

  lemma CodeOfSnoc(rest: seq<byte>, b: byte)
    requires 0 < |rest| < 4
    ensures CodeOf(rest + [b]) == ((b & 0x3f) as bv32) | (CodeOf(rest) << 6)
  {
    var next := rest + [b];
    assert next[..|next| - 1] == rest && next[|next| - 1] == b;
  }

  lemma StepCode(d: Decoder, rest: seq<byte>, b: byte)
    requires Stands(d, rest)
    ensures |rest| <= 3 && Step(d, b).codep == CodeOf(rest + [b])
  {
    if rest == [] {
      assert rest + [b] == [b];
    } else {
      CodeOfSnoc(rest, b);
      assert d.state != ACCEPT by { NotAtBoundary(rest); }
    }
  }

  lemma NotAtBoundary(rest: seq<byte>)
    ensures StateOf(rest) == ACCEPT <==> rest == []
  {
  }

  /** One step: the character goes on, is finished, or cannot be finished any more. */
  lemma StepMeaning(d: Decoder, rest: seq<byte>, b: byte)
    requires Stands(d, rest)
    ensures Step(d, b).state == ACCEPT <==> Utf8Char(rest + [b])
    ensures Step(d, b).state != ACCEPT ==> Step(d, b).state == StateOf(rest + [b])
    ensures |rest| <= 3 && Step(d, b).codep == CodeOf(rest + [b])
  {
    StepCode(d, rest, b);
    if |rest| == 0 {
      assert rest + [b] == [b];
      FirstByte(d, b);
    } else if |rest| == 1 {
      SecondByte(d, rest, b);
    } else if |rest| == 2 {
      ThirdByte(d, rest, b);
    } else {
      FourthByte(d, rest, b);
    }
  }

  // ---------- the validator recognises the grammar ----------

  lemma CharPrefix(c: seq<byte>, k: nat)
    requires Utf8Char(c) && k < |c|
    ensures StateOf(c[..k]) != REJECT && !Utf8Char(c[..k])
  {
  }

  lemma {:induction false} WithinChar(d: Decoder, c: seq<byte>, k: nat)
    requires d.state == ACCEPT && Utf8Char(c) && k < |c|
    ensures Stands(Run(d, c[..k]), c[..k])
  {
    if k > 0 {
      WithinChar(d, c, k - 1);
      CharPrefix(c, k);
      assert c[..k] == c[..k - 1] + [c[k - 1]];
      RunSnoc(d, c[..k - 1], c[k - 1]);
      StepMeaning(Run(d, c[..k - 1]), c[..k - 1], c[k - 1]);
    } else {
      assert c[..0] == [];
    }
  }

  function Narrow(a: byte, b: byte): bv32 { ((b & 0x3f) as bv32) | (((a & 0x1F) as bv32) << 6) }

  lemma CodeOfOne(a: byte)
    requires a <= 0x7F
    ensures CodeOf([a]) == a as bv32
  {
    ClassRanges(a);
    assert LeadBits(ClassOf(Val(a)), a) == a as bv32;
  }

  lemma CodeOfTwo(a: byte, b: byte)
    requires 0xC2 <= a <= 0xDF
    ensures CodeOf([a, b]) == Narrow(a, b)
  {
    ClassRanges(a);
    assert LeadBits(ClassOf(Val(a)), a) == (a & 0x1F) as bv32;
    assert [a, b] == [a] + [b];
    CodeOfSnoc([a], b);
  }

  lemma InvertsOne(a: byte)
    requires a <= 0x7F
    ensures Scalar(a as bv32) && Encode(a as bv32) == [a]
  {
  }

  lemma InvertsTwo(a: byte, b: byte)
    requires 0xC2 <= a <= 0xDF && Tail(b)
    ensures Scalar(Narrow(a, b)) && Encode(Narrow(a, b)) == [a, b]
  {
  }

  lemma EncodeShort(c: seq<byte>)
    requires Utf8Char(c) && |c| <= 2
    ensures Scalar(CodeOf(c)) && Encode(CodeOf(c)) == c
  {
    hide CodeOf, Scalar, Encode, Narrow;
    if |c| == 1 {
      assert c == [c[0]];
      CodeOfOne(c[0]);
      InvertsOne(c[0]);
    } else {
      assert c == [c[0], c[1]];
      CodeOfTwo(c[0], c[1]);
      InvertsTwo(c[0], c[1]);
    }
  }

  /** The first octet of a longer character. */
  lemma LeadOctet(c: seq<byte>)
    requires Utf8Char(c)
    ensures |c| == 3 ==> 0xE0 <= c[0] <= 0xEF
    ensures |c| == 4 ==> 0xF0 <= c[0] <= 0xF4
  {
  }

  lemma CodeOfThree(a: byte, b: byte, c: byte)
    requires 0xE0 <= a <= 0xEF
    ensures CodeOf([a, b, c]) == Wide(a, b, c)
  {
    ClassRanges(a);
    assert LeadBits(ClassOf(Val(a)), a) == (a & 0x0F) as bv32;
    assert [a, b] == [a] + [b] && [a, b, c] == [a, b] + [c];
    CodeOfSnoc([a], b);
    CodeOfSnoc([a, b], c);
  }

  lemma CodeOfFour(a: byte, b: byte, c: byte, d: byte)
    requires 0xF0 <= a <= 0xF4
    ensures CodeOf([a, b, c, d]) == Widest(a, b, c, d)
  {
    ClassRanges(a);
    assert LeadBits(ClassOf(Val(a)), a) == (a & 0x07) as bv32;
    assert [a, b] == [a] + [b] && [a, b, c] == [a, b] + [c] && [a, b, c, d] == [a, b, c] + [d];
    CodeOfSnoc([a], b);
    CodeOfSnoc([a, b], c);
    CodeOfSnoc([a, b, c], d);
  }

  function Wide(a: byte, b: byte, c: byte): bv32 {
    ((c & 0x3f) as bv32) | ((((b & 0x3f) as bv32) | (((a & 0x0F) as bv32) << 6)) << 6)
  }

  lemma WideRange(a: byte, b: byte, c: byte)
    requires Utf8Char([a, b, c])
    ensures 0x800 <= Wide(a, b, c) < 0x10000 && !(0xD800 <= Wide(a, b, c) <= 0xDFFF)
  {
  }

  lemma WideBits(a: byte, b: byte, c: byte)
    requires Utf8Char([a, b, c])
    ensures var v := Wide(a, b, c);
            0xE0 | ((v >> 12) & 0x0F) as byte == a && 0x80 | ((v >> 6) & 0x3F) as byte == b
            && 0x80 | (v & 0x3F) as byte == c
  {
  }

  lemma InvertsThree(a: byte, b: byte, c: byte)
    requires Utf8Char([a, b, c])
    ensures Scalar(CodeOf([a, b, c])) && Encode(CodeOf([a, b, c])) == [a, b, c]
  {
    hide *;
    LeadOctet([a, b, c]);
    CodeOfThree(a, b, c);
    WideRange(a, b, c);
    WideBits(a, b, c);
    EncodeWide(a, b, c, Wide(a, b, c));
  }

  lemma EncodeWide(a: byte, b: byte, c: byte, v: bv32)
    requires 0x800 <= v < 0x10000 && !(0xD800 <= v <= 0xDFFF)
    requires 0xE0 | ((v >> 12) & 0x0F) as byte == a && 0x80 | ((v >> 6) & 0x3F) as byte == b
    requires 0x80 | (v & 0x3F) as byte == c
    ensures Scalar(v) && Encode(v) == [a, b, c]
  {
  }

  function Widest(a: byte, b: byte, c: byte, d: byte): bv32 {
    ((d & 0x3f) as bv32)
    | ((((c & 0x3f) as bv32) | ((((b & 0x3f) as bv32) | (((a & 0x07) as bv32) << 6)) << 6)) << 6)
  }

  lemma WidestRange(a: byte, b: byte, c: byte, d: byte)
    requires Utf8Char([a, b, c, d])
    ensures 0x10000 <= Widest(a, b, c, d) <= 0x10FFFF
  {
  }

  lemma WidestBits(a: byte, b: byte, c: byte, d: byte)
    requires Utf8Char([a, b, c, d])
    ensures var v := Widest(a, b, c, d);
            0xF0 | ((v >> 18) & 0x07) as byte == a && 0x80 | ((v >> 12) & 0x3F) as byte == b
            && 0x80 | ((v >> 6) & 0x3F) as byte == c && 0x80 | (v & 0x3F) as byte == d
  {
  }

  lemma EncodeOfFour(v: bv32)
    requires 0x10000 <= v <= 0x10FFFF
    ensures Scalar(v)
    ensures Encode(v) == [0xF0 | ((v >> 18) & 0x07) as byte, 0x80 | ((v >> 12) & 0x3F) as byte,
                          0x80 | ((v >> 6) & 0x3F) as byte, 0x80 | (v & 0x3F) as byte]
  {
  }

  lemma EncodeWidest(a: byte, b: byte, c: byte, d: byte, v: bv32)
    requires 0x10000 <= v <= 0x10FFFF
    requires 0xF0 | ((v >> 18) & 0x07) as byte == a && 0x80 | ((v >> 12) & 0x3F) as byte == b
    requires 0x80 | ((v >> 6) & 0x3F) as byte == c && 0x80 | (v & 0x3F) as byte == d
    ensures Scalar(v) && Encode(v) == [a, b, c, d]
  {
    EncodeOfFour(v);
  }

  lemma InvertsFour(a: byte, b: byte, c: byte, d: byte)
    requires Utf8Char([a, b, c, d])
    ensures Scalar(CodeOf([a, b, c, d])) && Encode(CodeOf([a, b, c, d])) == [a, b, c, d]
  {
    hide *;
    LeadOctet([a, b, c, d]);
    CodeOfFour(a, b, c, d);
    WidestRange(a, b, c, d);
    WidestBits(a, b, c, d);
    EncodeWidest(a, b, c, d, Widest(a, b, c, d));
  }

  lemma EncodeInverts(c: seq<byte>)
    requires Utf8Char(c)
    ensures Scalar(CodeOf(c)) && Encode(CodeOf(c)) == c
  {
    if |c| <= 2 {
      EncodeShort(c);
    } else if |c| == 3 {
      assert c == [c[0], c[1], c[2]];
      InvertsThree(c[0], c[1], c[2]);
    } else {
      assert c == [c[0], c[1], c[2], c[3]];
      InvertsFour(c[0], c[1], c[2], c[3]);
    }
  }

  /** From a boundary, a character leads back to a boundary and leaves its scalar value behind. */
  lemma CharAccepted(d: Decoder, c: seq<byte>)
    requires d.state == ACCEPT && Utf8Char(c)
    ensures Run(d, c).state == ACCEPT
    ensures Scalar(Run(d, c).codep) && Encode(Run(d, c).codep) == c
  {
    var k := |c| - 1;
    WithinChar(d, c, k);
    assert c == c[..k] + [c[k]];
    RunSnoc(d, c[..k], c[k]);
    StepMeaning(Run(d, c[..k]), c[..k], c[k]);
    EncodeInverts(c);
  }

  lemma {:induction false} CharsAccepted(d: Decoder, parts: seq<seq<byte>>)
    requires d.state == ACCEPT && AllChars(parts)
    ensures Run(d, Flatten(parts)).state == ACCEPT
    decreases |parts|
  {
    if parts != [] {
      CharAccepted(d, parts[0]);
      CharsAccepted(Run(d, parts[0]), parts[1..]);
      RunConcat(d, parts[0], Flatten(parts[1..]));
    }
  }

  lemma StandsNext(d: Decoder, rest: seq<byte>, b: byte)
    requires Stands(d, rest) && Step(d, b).state != REJECT && !Utf8Char(rest + [b])
    ensures Stands(Step(d, b), rest + [b])
  {
    StepMeaning(d, rest, b);
    NotAtBoundary(rest + [b]);
  }

  lemma AtBoundary(d: Decoder)
    requires d.state == ACCEPT
    ensures Stands(d, [])
  {
  }

  lemma NothingRead()
    ensures Stands(Run(START, []), []) && Flatten<byte>([]) == []
  {
  }

  /** Input not rejected so far is whole characters followed by the first octets of another one. */
  lemma {:induction false} Decompose(bs: seq<byte>) returns (parts: seq<seq<byte>>, rest: seq<byte>)
    requires Run(START, bs).state != REJECT
    ensures AllChars(parts) && Flatten(parts) + rest == bs
    ensures Stands(Run(START, bs), rest)
    ensures rest == [] && bs != [] ==> parts != [] && Run(START, bs).codep == CodeOf(parts[|parts| - 1])
  {
    hide StateOf, CodeOf, Stands, Step, ClassOf;
    if bs == [] {
      NothingRead();
      return [], [];
    }
    var init, b := bs[..|bs| - 1], bs[|bs| - 1];
    assert bs == init + [b];
    RunSnoc(START, init, b);
    if Run(START, init).state == REJECT { RejectIsAbsorbing(Run(START, init), [b]); }
    parts, rest := Decompose(init);
    StepMeaning(Run(START, init), rest, b);
    if Utf8Char(rest + [b]) {
      AtBoundary(Step(Run(START, init), b));
      FlattenSnoc(parts, rest + [b]);
      assert Flatten(parts + [rest + [b]]) == bs;
      parts, rest := parts + [rest + [b]], [];
    } else {
      StandsNext(Run(START, init), rest, b);
      assert Flatten(parts) + (rest + [b]) == bs;
      rest := rest + [b];
    }
  }

  /** The automaton accepts exactly the octet strings of the RFC 3629 grammar. */
  lemma AcceptsExactlyWellFormed(s: seq<byte>)
    ensures Run(START, s).state == ACCEPT <==> WellFormed(s)
  {
    if Run(START, s).state == ACCEPT {
      var parts, rest := Decompose(s);
      NotAtBoundary(rest);
      assert Flatten(parts) == s;
    }
    if WellFormed(s) {
      var parts :| AllChars(parts) && Flatten(parts) == s;
      CharsAccepted(START, parts);
    }
  }

  /** Whenever the automaton returns to ACCEPT, its code point is the scalar value just encoded. */
  lemma AcceptLeavesScalar(s: seq<byte>)
    requires s != [] && Run(START, s).state == ACCEPT
    ensures var v := Run(START, s).codep;
            Scalar(v) && |Encode(v)| <= |s| && s[|s| - |Encode(v)|..] == Encode(v)
            && WellFormed(s[..|s| - |Encode(v)|])
  {
    var parts, rest := Decompose(s);
    NotAtBoundary(rest);
    var last := |parts| - 1;
    var c := parts[last];
    EncodeInverts(c);
    assert parts == parts[..last] + [c];
    FlattenSnoc(parts[..last], c);
    assert s == Flatten(parts[..last]) + c;
    assert s[..|s| - |c|] == Flatten(parts[..last]) && AllChars(parts[..last]);
  }

  function Completion(rest: seq<byte>): seq<byte>
    requires StateOf(rest) != REJECT
  {
    match StateOf(rest)
    case 0 => []
    case 2 => [0x80]
    case 3 => [0x80, 0x80]
    case 4 => [0xA0, 0x80]
    case 5 => [0x80, 0x80]
    case 6 => [0x90, 0x80, 0x80]
    case 7 => [0x80, 0x80, 0x80]
    case _ => [0x80, 0x80, 0x80]
  }

  lemma CompletionIsChar(rest: seq<byte>)
    requires rest != [] && StateOf(rest) != REJECT
    ensures Utf8Char(rest + Completion(rest))
  {
  }

  lemma Completable(s: seq<byte>) returns (more: seq<byte>)
    requires Run(START, s).state != REJECT
    ensures WellFormed(s + more)
  {
    var parts, rest := Decompose(s);
    if rest == [] {
      more := [];
      assert s + [] == s;
      assert Flatten(parts) == s by { assert Flatten(parts) + [] == Flatten(parts); }
    } else {
      more := Completion(rest);
      CompletionIsChar(rest);
      hide Run, Stands, Utf8Char;
      FlattenSnoc(parts, rest + more);
      Associative(Flatten(parts), rest, more);
      assert AllChars(parts + [rest + more]);
    }
  }

  lemma RejectedIsNotCompletable(s: seq<byte>, more: seq<byte>)
    requires Run(START, s).state == REJECT
    ensures !WellFormed(s + more)
  {
    hide WellFormed, Step;
    RunConcat(START, s, more);
    RejectIsAbsorbing(Run(START, s), more);
    AcceptsExactlyWellFormed(s + more);
  }

  /** Input is not rejected exactly when it can still be completed to well-formed text. */
  lemma NotRejectedIffExtensible(s: seq<byte>)
    ensures Run(START, s).state != REJECT <==> exists more: seq<byte> :: WellFormed(s + more)
  {
    hide WellFormed, Run;
    if Run(START, s).state != REJECT {
      var more := Completable(s);
    } else {
      forall more: seq<byte> ensures !WellFormed(s + more) {
        RejectedIsNotCompletable(s, more);
      }
    }
  }

  // ---------- the streaming validator ----------

  /** utf8d[byte] */
  method LookUpClass(b: byte) returns (class_: nat)
    ensures class_ == ClassOf(Val(b)) < 12
  {
    TableClasses(Val(b));
    class_ := Utf8d(Val(b));
  }

  /** utf8d[256 + state*16 + class] */
  method LookUpTransition(state: nat, class_: nat) returns (next: nat)
    requires state < 9 && class_ < 12
    ensures next == Successor(state, class_) < 9
  {
    TableTransitions(state, class_);
    next := Utf8d(256 + state * 16 + class_);
  }

  class Validator {
    var state: nat
    var codepoint: bv32

    constructor ()
      ensures state == ACCEPT && codepoint == 0
    {
      state, codepoint := ACCEPT, 0;
    }

    ghost predicate Valid() reads this { state < 9 }

    ghost function Now(): Decoder
      reads this
      requires Valid()
    {
      Dfa(state, codepoint)
    }

    /** Look the octet and the transition up in the table. */
    method DecodeByte(b: byte)
      requires Valid()
      modifies this
      ensures Valid() && Now() == Step(old(Now()), b)
    {
      var class_ := LookUpClass(b);
      codepoint := if state != ACCEPT then ((b & 0x3f) as bv32) | (codepoint << 6) else LeadBits(class_, b);
      state := LookUpTransition(state, class_);
    }

    /** Advance over a range of octets, stopping at the first one that is rejected. */
    method Decode(bs: seq<byte>) returns (ok: bool)
      requires Valid()
      modifies this
      ensures Valid()
      ensures ok <==> bs == [] || Run(old(Now()), bs).state != REJECT
      ensures ok ==> Now() == Run(old(Now()), bs)
      ensures !ok ==> state == REJECT
    {
      var i := 0;
      while i < |bs|
        invariant 0 <= i <= |bs| && Valid()
        invariant Now() == Run(old(Now()), bs[..i])
        invariant i > 0 ==> state != REJECT
      {
        assert bs[..i + 1] == bs[..i] + [bs[i]];
        RunSnoc(old(Now()), bs[..i], bs[i]);
        DecodeByte(bs[i]);
        if state == REJECT {
          assert bs == bs[..i + 1] + bs[i + 1..];
          RunConcat(old(Now()), bs[..i + 1], bs[i + 1..]);
          RejectIsAbsorbing(Now(), bs[i + 1..]);
          return false;
        }
        i := i + 1;
      }
      assert bs[..i] == bs;
      return true;
    }

    method Complete() returns (atBoundary: bool)
      requires Valid()
      ensures atBoundary <==> Now().state == ACCEPT
    {
      return state == ACCEPT;
    }

    method Reset()
      modifies this
      ensures Valid() && Now() == START
    {
      state, codepoint := ACCEPT, 0;
    }
  }

  /** Validate a whole string. */
  method Validate(s: seq<byte>) returns (ok: bool)
    ensures ok <==> WellFormed(s)
  {
    AcceptsExactlyWellFormed(s);
    var v := new Validator();
    var passed := v.Decode(s);
    if !passed { return false; }
    ok := v.Complete();
  }
}
