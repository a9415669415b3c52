/**
 HTTP parameter lists: tokens separated by commas, each with attributes separated by semicolons.
 A cursor is a position in the octets s; its end is |s|.
 */
module HttpParameters {
  import opened Bytes

  const CR: byte := 13
  const LF: byte := 10
  const SPACE: byte := 32
  const TAB: byte := 9
  const QUOTE: byte := 34
  const COMMA: byte := 44
  const SEMICOLON: byte := 59
  const EQUALS: byte := 61
  const BACKSLASH: byte := 92

  // ---------- characters ----------

  const ROW_2: seq<bool> :=
    [false, true, false, true, true, true, true, true, false, false, true, true, false, true, true, false]

  const HEADER_TOKEN: seq<bool> :=
    Repeat(false, 32) + ROW_2 + Repeat(true, 10) + Repeat(false, 7) +
    Repeat(true, 26) + [false, false, false, true, true] +
    Repeat(true, 27) + [false, true, false, true, false] + Repeat(false, 128)

  function Repeat(b: bool, n: nat): (s: seq<bool>)
    ensures |s| == n && forall i :: 0 <= i < n ==> s[i] == b
  {
    seq(n, _ => b)
  }

  lemma TableSize()
    ensures |HEADER_TOKEN| == 256
  {
  }

  predicate IsToken(c: byte) {
    TableSize();
    HEADER_TOKEN[Val(c)]
  }

  predicate IsSpace(c: byte) { c == TAB || c == SPACE }

  /** ( ) < > @ , ; : \ " / [ ] ? = { } */
  predicate IsSeparator(n: nat) {
    n in {40, 41, 60, 62, 64, 44, 59, 58, 92, 34, 47, 91, 93, 63, 61, 123, 125}
  }

  // ---------- tokens and white space ----------

  /** The first position from i on where p does not hold. */
  function Skip(s: seq<byte>, i: nat, p: byte -> bool): (j: nat)
    requires i <= |s|
    ensures i <= j <= |s| && (forall k :: i <= k < j ==> p(s[k])) && (j < |s| ==> !p(s[j]))
    decreases |s| - i
  {
    if i == |s| || !p(s[i]) then i else Skip(s, i + 1, p)
  }

  /** The only such position. */
  lemma {:induction false} SkipIs(s: seq<byte>, i: nat, p: byte -> bool, j: nat)
    requires i <= j <= |s| && (forall k :: i <= k < j ==> p(s[k])) && (j < |s| ==> !p(s[j]))
    ensures Skip(s, i, p) == j
    decreases j - i
  {
    if i < j { SkipIs(s, i + 1, p, j); }
  }

  /** White space, after an end of line that continues the line. */
  function Lws(s: seq<byte>, i: nat): (j: nat)
    requires i <= |s|
    ensures i <= j <= |s|
  {
    Skip(s, if |s| - i > 2 && s[i] == CR && s[i + 1] == LF && IsSpace(s[i + 2]) then i + 3 else i, IsSpace)
  }

  function AllLws(s: seq<byte>, i: nat): (j: nat)
    requires i <= |s|
    ensures i <= j <= |s|
    decreases |s| - i
  {
    var j := Lws(s, i);
    if j == |s| || j == i then j else AllLws(s, j)
  }

  method FindIfNot(s: seq<byte>, i: nat, p: byte -> bool) returns (j: nat)
    requires i <= |s|
    ensures j == Skip(s, i, p)
  {
    j := i;
    while j < |s| && p(s[j])
      invariant i <= j <= |s| && Skip(s, j, p) == Skip(s, i, p)
    {
      j := j + 1;
    }
  }

  method ExtractToken(s: seq<byte>, begin: nat) returns (token: seq<byte>, end: nat)
    requires begin <= |s|
    ensures end == Skip(s, begin, IsToken) && token == s[begin..end]
  {
    end := FindIfNot(s, begin, IsToken);
    token := s[begin..end];
  }

  method ExtractLws(s: seq<byte>, begin: nat) returns (end: nat)
    requires begin <= |s|
    ensures end == Lws(s, begin)
  {
    var it := begin;
    if |s| - begin > 2 && s[begin] == CR && s[begin + 1] == LF && IsSpace(s[begin + 2]) {
      it := it + 3;
    }
    end := FindIfNot(s, it, IsSpace);
  }

  method ExtractAllLws(s: seq<byte>, begin: nat) returns (end: nat)
    requires begin <= |s|
    ensures end == AllLws(s, begin)
  {
    var old_ := begin;
    end := ExtractLws(s, begin);
    while end != |s| && old_ != end
      invariant begin <= old_ <= end <= |s| && end == Lws(s, old_) && AllLws(s, old_) == AllLws(s, begin)
      decreases |s| - old_
    {
      old_ := end;
      end := ExtractLws(s, old_);
    }
  }

  // ---------- quoted strings ----------

  predicate NotQuote(c: byte) { c != QUOTE }

  /** The rest of a quoted string from position marker on: its value and where it ends. */
  function QuotedRest(s: seq<byte>, marker: nat, value: seq<byte>): (r: Option<(seq<byte>, nat)>)
    requires 0 < marker <= |s| && s[marker - 1] == QUOTE
    ensures r.Some? ==> marker < r.value.1 <= |s|
    decreases |s| - marker
  {
    var c := Skip(s, marker, NotQuote);
    if c == |s| then None
    else if s[c - 1] == BACKSLASH then QuotedRest(s, c + 1, value + s[marker..c - 1] + [QUOTE])
    else Some((value + s[marker..c], c + 1))
  }

  function Quoted(s: seq<byte>, begin: nat): (r: Option<(seq<byte>, nat)>)
    requires begin <= |s|
    ensures r.Some? ==> begin < r.value.1 <= |s|
  {
    if begin == |s| || s[begin] != QUOTE then None else QuotedRest(s, begin + 1, [])
  }

  /** What the next quote, at position c, means for the rest of a quoted string. */
  lemma QuotedStep(s: seq<byte>, marker: nat, value: seq<byte>, c: nat)
    requires 0 < marker <= |s| && s[marker - 1] == QUOTE && c == Skip(s, marker, NotQuote)
    ensures c < |s| ==> s[c] == QUOTE && (s[c - 1] == BACKSLASH ==> marker < c)
    ensures QuotedRest(s, marker, value) ==
            if c == |s| then None
            else if s[c - 1] == BACKSLASH then QuotedRest(s, c + 1, value + s[marker..c - 1] + [QUOTE])
            else Some((value + s[marker..c], c + 1))
  {
    hide Skip;
  }

  method ExtractQuotedString(s: seq<byte>, begin: nat) returns (value: seq<byte>, end: nat)
    requires begin <= |s|
    ensures begin <= end <= |s| && (end == begin <==> Quoted(s, begin).None?)
    ensures end != begin ==> Quoted(s, begin) == Some((value, end))
  {
    hide Skip, QuotedRest;
    if |s| == begin || s[begin] != QUOTE {
      return [], begin;
    }
    var marker := begin + 1;
    var collected := [];
    var cursor := FindIfNot(s, marker, NotQuote);
    while cursor != |s|
      invariant begin < marker <= cursor <= |s| && s[marker - 1] == QUOTE && cursor == Skip(s, marker, NotQuote)
      invariant QuotedRest(s, marker, collected) == Quoted(s, begin)
      decreases |s| - cursor
    {
      QuotedStep(s, marker, collected, cursor);
      if s[cursor - 1] == BACKSLASH {
        collected := collected + s[marker..cursor - 1] + [QUOTE];
        cursor := cursor + 1;
        marker := cursor;
      } else {
        return collected + s[marker..cursor], cursor + 1;
      }
      cursor := FindIfNot(s, cursor, NotQuote);
    }
    QuotedStep(s, marker, collected, cursor);
    return [], begin;
  }

  /** A value with its quotes escaped. */
  function Escaped(v: seq<byte>): seq<byte> {
    if v == [] then [] else (if v[0] == QUOTE then [BACKSLASH, QUOTE] else [v[0]]) + Escaped(v[1..])
  }

  lemma {:induction false} EscapedConcat(a: seq<byte>, b: seq<byte>)
    ensures Escaped(a + b) == Escaped(a) + Escaped(b)
  {
    if a == [] {
      assert a + b == b;
    } else {
      EscapedConcat(a[1..], b);
      assert (a + b)[0] == a[0] && (a + b)[1..] == a[1..] + b;
      var first := if a[0] == QUOTE then [BACKSLASH, QUOTE] else [a[0]];
      Associative(first, Escaped(a[1..]), Escaped(b));
    }
  }

  lemma {:induction false} NothingToEscape(v: seq<byte>)
    requires forall i :: 0 <= i < |v| ==> v[i] != QUOTE
    ensures Escaped(v) == v
  {
    if v != [] { NothingToEscape(v[1..]); }
  }

  predicate EndsInBackslash(v: seq<byte>) { v != [] && v[|v| - 1] == BACKSLASH }

  /** A value without quotes ends at the next quote, unless a backslash comes before that. */
  lemma LastPart(s: seq<byte>, marker: nat, w: seq<byte>, rest: seq<byte>, value: seq<byte>)
    requires 0 < marker <= |s| && s[marker - 1] == QUOTE && s[marker..] == w + [QUOTE] + rest
    requires forall i :: 0 <= i < |w| ==> w[i] != QUOTE
    ensures var e, r := marker + |w| + 1, QuotedRest(s, marker, value);
            if EndsInBackslash(w) then r.Some? ==> r.value.1 > e else r == Some((value + w, e))
  {
    hide Skip;
    var c := marker + |w|;
    Associative(w, [QUOTE], rest);
    Cut(s, marker, w, [QUOTE] + rest);
    assert s[c..][0] == QUOTE;
    forall i | marker <= i < c ensures NotQuote(s[i]) {
      assert s[i] == s[marker..c][i - marker];
    }
    SkipIs(s, marker, NotQuote, c);
    assert |w| > 0 ==> s[c - 1] == s[marker..c][|w| - 1];
  }

  /** Up to the first quote of a value: it is read from its escape, and reading goes on after it. */
  lemma EscapedPart(s: seq<byte>, marker: nat, plain: seq<byte>, tail: seq<byte>, value: seq<byte>)
    requires 0 < marker <= |s| && s[marker - 1] == QUOTE && s[marker..] == plain + ([BACKSLASH, QUOTE] + tail)
    requires forall i :: 0 <= i < |plain| ==> plain[i] != QUOTE
    ensures var next := marker + |plain| + 2;
            && next <= |s| && s[next - 1] == QUOTE && s[next..] == tail
            && QuotedRest(s, marker, value) == QuotedRest(s, next, value + plain + [QUOTE])
  {
    hide Skip, QuotedRest;
    var c := marker + |plain| + 1;
    Cut(s, marker, plain, [BACKSLASH, QUOTE] + tail);
    Cut(s, c - 1, [BACKSLASH, QUOTE], tail);
    assert s[c - 1..c + 1][0] == BACKSLASH && s[c - 1..c + 1][1] == QUOTE;
    forall i | marker <= i < c ensures NotQuote(s[i]) {
      assert i < c - 1 ==> s[i] == s[marker..c - 1][i - marker];
    }
    SkipIs(s, marker, NotQuote, c);
    QuotedStep(s, marker, value, c);
  }

  lemma EscapedParts(w: seq<byte>, k: nat)
    requires k < |w| && w[k] == QUOTE && forall i :: 0 <= i < k ==> w[i] != QUOTE
    ensures Escaped(w) == w[..k] + ([BACKSLASH, QUOTE] + Escaped(w[k + 1..]))
  {
    assert w == w[..k] + w[k..];
    EscapedConcat(w[..k], w[k..]);
    NothingToEscape(w[..k]);
    assert w[k..][1..] == w[k + 1..];
  }

  lemma {:induction false} QuotedFrom(s: seq<byte>, marker: nat, w: seq<byte>, rest: seq<byte>, value: seq<byte>)
    requires 0 < marker <= |s| && s[marker - 1] == QUOTE && s[marker..] == Escaped(w) + [QUOTE] + rest
    ensures QuotedRest(s, marker, value) == Some((value + w, marker + |Escaped(w)| + 1)) <==> !EndsInBackslash(w)
    decreases |w|
  {
    hide QuotedRest, Escaped, Skip;
    var k := Skip(w, 0, NotQuote);
    if k == |w| {
      NothingToEscape(w);
      LastPart(s, marker, w, rest, value);
    } else {
      var plain, later := w[..k], w[k + 1..];
      EscapedParts(w, k);
      var tail := Escaped(later) + [QUOTE] + rest;
      assert plain + ([BACKSLASH, QUOTE] + Escaped(later)) + [QUOTE] + rest == plain + ([BACKSLASH, QUOTE] + tail);
      EscapedPart(s, marker, plain, tail, value);
      QuotedFrom(s, marker + k + 2, later, rest, value + plain + [QUOTE]);
      assert value + plain + [QUOTE] + later == value + w;
      assert EndsInBackslash(later) <==> EndsInBackslash(w);
    }
  }

  /**
   A value whose quotes are escaped is read back exactly if it does not end in a backslash: the
   parser takes a backslash before the closing quote for an escape, and has no escaped backslash.
   */
  lemma QuotedRoundTrip(v: seq<byte>, rest: seq<byte>)
    ensures var s := [QUOTE] + Escaped(v) + [QUOTE] + rest;
            Quoted(s, 0) == Some((v, |Escaped(v)| + 2)) <==> !EndsInBackslash(v)
  {
    hide QuotedRest, Escaped;
    var s := [QUOTE] + Escaped(v) + [QUOTE] + rest;
    assert s[1..] == Escaped(v) + [QUOTE] + rest;
    QuotedFrom(s, 1, v, rest, []);
    assert [] + v == v;
  }

  /** So a single backslash in quotes is not read as a quoted string at all. */
  lemma QuotedBackslash()
    ensures Escaped([BACKSLASH]) == [BACKSLASH] && Quoted([QUOTE, BACKSLASH, QUOTE], 0) == None
  {
    var s := [QUOTE, BACKSLASH, QUOTE];
    SkipIs(s, 1, NotQuote, 2);
    QuotedStep(s, 1, [], 2);
    SkipIs(s, 3, NotQuote, 3);
    QuotedStep(s, 3, [] + s[1..1] + [QUOTE], 3);
    assert [BACKSLASH][1..] == [];
  }

  // ---------- attributes ----------

  type Attributes = map<seq<byte>, seq<byte>>

  /** The name, value and end of the attribute at i, or None if there is no attribute. */
  function Attribute(s: seq<byte>, i: nat): (r: Option<(seq<byte>, seq<byte>, nat)>)
    requires i <= |s|
    ensures r.Some? ==> i < r.value.2 <= |s|
  {
    var start := AllLws(s, i);
    var nameEnd := Skip(s, start, IsToken);
    if nameEnd == start then None
    else
      var name, eq := s[start..nameEnd], AllLws(s, nameEnd);
      if eq == |s| || s[eq] != EQUALS then Some((name, [], eq))
      else
        var v := AllLws(s, eq + 1);
        if v == |s| then None
        else if Quoted(s, v).Some? then Some((name, Quoted(s, v).value.0, Quoted(s, v).value.1))
        else if Skip(s, v, IsToken) == v then None
        else Some((name, s[v..Skip(s, v, IsToken)], Skip(s, v, IsToken)))
  }

  /** The attributes from i on and where they end; None is a syntax error. */
  function AttributeList(s: seq<byte>, i: nat, first: bool, found: Attributes): (r: Option<(Attributes, nat)>)
    requires i <= |s|
    ensures r.Some? ==> i <= r.value.1 <= |s| && (first && i < |s| ==> i < r.value.1)
    decreases |s| - i
  {
    if i == |s| then Some((found, i))
    else
      var j := AllLws(s, i);
      if j == |s| then Some((found, j))
      else if !first && s[j] != SEMICOLON then Some((found, j))
      else
        var k := if first then j else j + 1;
        var a := Attribute(s, k);
        if a.None? then None
        else AttributeList(s, a.value.2, false, found[a.value.0 := a.value.1])
  }

  method ExtractAttribute(s: seq<byte>, begin: nat) returns (r: Option<(seq<byte>, seq<byte>, nat)>)
    requires begin <= |s|
    ensures r == Attribute(s, begin)
  {
    hide AllLws, Skip, Quoted;
    var cursor := ExtractAllLws(s, begin);
    var name, next := ExtractToken(s, cursor);
    if name == [] {
      return None;
    }
    cursor := ExtractAllLws(s, next);
    if cursor == |s| || s[cursor] != EQUALS {
      return Some((name, [], cursor));
    }
    cursor := ExtractAllLws(s, cursor + 1);
    if cursor == |s| {
      return None;
    }
    var value;
    value, next := ExtractQuotedString(s, cursor);
    if next != cursor {
      return Some((name, value, next));
    }
    value, next := ExtractToken(s, cursor);
    if value == [] {
      return None;
    }
    r := Some((name, value, next));
  }

  /** An error gives back the beginning, which is never the end of a list. */
  method ExtractAttributes(s: seq<byte>, begin: nat, attributes: Attributes) returns (end: nat, extracted: Attributes)
    requires begin <= |s|
    ensures begin <= end <= |s|
    ensures end == begin <==> begin == |s| || AttributeList(s, begin, true, attributes).None?
    ensures end != begin ==> AttributeList(s, begin, true, attributes) == Some((extracted, end))
  {
    hide AllLws, Attribute;
    extracted := attributes;
    if begin == |s| {
      return begin, extracted;
    }
    var cursor, first := begin, true;
    while cursor != |s|
      invariant begin <= cursor <= |s| && (first <==> cursor == begin)
      invariant AttributeList(s, cursor, first, extracted) == AttributeList(s, begin, true, attributes)
      decreases |s| - cursor
    {
      ghost var start := cursor;
      cursor := ExtractAllLws(s, cursor);
      if cursor == |s| {
        break;
      }
      if first {
        first := false;
      } else if s[cursor] == SEMICOLON {
        cursor := cursor + 1;
      } else {
        assert AttributeList(s, start, false, extracted) == Some((extracted, cursor));
        return cursor, extracted;
      }
      var a := ExtractAttribute(s, cursor);
      if a.None? {
        return begin, extracted;
      }
      extracted := extracted[a.value.0 := a.value.1];
      cursor := a.value.2;
    }
    end := cursor;
  }

  // ---------- parameters ----------

  datatype Parameter = Parameter(name: seq<byte>, attributes: Attributes)

  /** The parameter at i and where it ends, or None if there is no token or its attributes are in error. */
  function ParameterAt(s: seq<byte>, i: nat): (r: Option<(Parameter, nat)>)
    requires i <= |s|
    ensures r.Some? ==> i < r.value.1 <= |s|
  {
    var nameEnd := Skip(s, i, IsToken);
    if nameEnd == i then None
    else
      var name, j := s[i..nameEnd], AllLws(s, nameEnd);
      if j == |s| || s[j] != SEMICOLON then Some((Parameter(name, map[]), j))
      else if j + 1 == |s| || AttributeList(s, j + 1, true, map[]).None? then None
      else
        var (attributes, end) := AttributeList(s, j + 1, true, map[]).value;
        Some((Parameter(name, attributes), end))
  }

  /** The parameters from i on, after those found before, and where they end; None is a syntax error. */
  function ParameterList(s: seq<byte>, i: nat, found: seq<Parameter>): (r: (Option<nat>, seq<Parameter>))
    requires i <= |s|
    ensures r.0.Some? ==> i <= r.0.value <= |s| && (i < |s| ==> i < r.0.value)
    decreases |s| - i
  {
    var j := AllLws(s, i);
    if i == |s| || j == |s| then (Some(|s|), found)
    else
      var p := ParameterAt(s, j);
      if p.None? then (None, found)
      else
        var all, k := found + [p.value.0], AllLws(s, p.value.1);
        if k == |s| || s[k] != COMMA then (Some(k), all)
        else if k + 1 == |s| then (None, all)
        else ParameterList(s, k + 1, all)
  }

  lemma NothingToSkip(s: seq<byte>)
    ensures AllLws(s, |s|) == |s|
  {
  }

  method ExtractParameter(s: seq<byte>, begin: nat) returns (r: Option<(Parameter, nat)>)
    requires begin <= |s|
    ensures r == ParameterAt(s, begin)
  {
    hide Skip, AllLws, AttributeList;
    var name, next := ExtractToken(s, begin);
    if name == [] {
      return None;
    }
    var cursor := ExtractAllLws(s, next);
    if cursor == |s| {
      return Some((Parameter(name, map[]), cursor));
    }
    var attributes: Attributes := map[];
    if s[cursor] == SEMICOLON {
      cursor := cursor + 1;
      var acursor;
      acursor, attributes := ExtractAttributes(s, cursor, map[]);
      if acursor == cursor {
        return None;
      }
      cursor := acursor;
    }
    r := Some((Parameter(name, attributes), cursor));
  }

  /** An error gives back the beginning, which is never the end of a list that is not empty. */
  method ExtractParameters(s: seq<byte>, begin: nat, parameters: seq<Parameter>)
    returns (end: nat, extracted: seq<Parameter>)
    requires begin <= |s|
    ensures var (stop, all) := ParameterList(s, begin, parameters);
            && extracted == all && end == if stop.Some? then stop.value else begin
    ensures end == begin <==> begin == |s| || ParameterList(s, begin, parameters).0.None?
  {
    hide AllLws, ParameterAt;
    extracted := parameters;
    if begin == |s| {
      return begin, extracted;
    }
    var cursor := begin;
    while true
      invariant begin <= cursor < |s|
      invariant ParameterList(s, cursor, extracted) == ParameterList(s, begin, parameters)
      decreases |s| - cursor
    {
      cursor := ExtractAllLws(s, cursor);
      if cursor == |s| {
        return cursor, extracted;
      }
      var p := ExtractParameter(s, cursor);
      if p.None? {
        return begin, extracted;
      }
      extracted := extracted + [p.value.0];
      cursor := ExtractAllLws(s, p.value.1);
      if cursor == |s| || s[cursor] != COMMA {
        return cursor, extracted;
      }
      cursor := cursor + 1;
      if cursor == |s| {
        return begin, extracted;
      }
    }
  }

  // ---------- subprotocols ----------

  lemma Row2(n: nat)
    requires 32 <= n < 48
    ensures ROW_2[n - 32] <==> n != 32 && !IsSeparator(n)
  {
    if n < 40 {
      assert n == 32 || n == 33 || n == 34 || n == 35 || n == 36 || n == 37 || n == 38 || n == 39;
    } else {
      assert n == 40 || n == 41 || n == 42 || n == 43 || n == 44 || n == 45 || n == 46 || n == 47;
    }
  }

  /** The token characters are those of section 2.2 of RFC 2616: printable, no space and no separator. */
  lemma TokenTable(c: byte)
    ensures IsToken(c) <==> 32 < Val(c) < 127 && !IsSeparator(Val(c))
  {
    var n := Val(c);
    TableSize();
    if n < 32 {
      assert HEADER_TOKEN[n] == Repeat(false, 32)[n];
    } else if n < 48 {
      assert HEADER_TOKEN[n] == ROW_2[n - 32];
      Row2(n);
    } else if n < 91 {
    } else if n < 96 {
      assert HEADER_TOKEN[n] == [false, false, false, true, true][n - 91];
    } else if n < 123 {
    } else if n < 128 {
      assert HEADER_TOKEN[n] == [false, true, false, true, false][n - 123];
    }
  }

  lemma TokenIsVisible(c: byte)
    ensures IsToken(c) ==> !IsSpace(c) && c != CR && c !in {COMMA, SEMICOLON, EQUALS, QUOTE}
  {
    hide IsToken;
    TokenTable(c);
    assert Val(SEMICOLON) == 59 && Val(EQUALS) == 61 && Val(QUOTE) == 34;
    assert Val(COMMA) == 44 && Val(CR) == 13 && Val(SPACE) == 32 && Val(TAB) == 9;
  }

  /** What add_subprotocol accepts. */
  predicate Acceptable(name: seq<byte>) { name != [] && forall c :: c in name ==> IsToken(c) }

  /** The list a client sends. */
  function Join(names: seq<seq<byte>>): seq<byte> {
    if names == [] then [] else names[0] + Others(names[1..])
  }

  function Others(names: seq<seq<byte>>): seq<byte> {
    if names == [] then [] else [COMMA, SPACE] + names[0] + Others(names[1..])
  }

  lemma {:induction false} OthersSnoc(names: seq<seq<byte>>, name: seq<byte>)
    ensures Others(names + [name]) == Others(names) + [COMMA, SPACE] + name
  {
    if names == [] {
      assert [name][1..] == [];
      assert [COMMA, SPACE] + name + [] == [COMMA, SPACE] + name;
    } else {
      OthersSnoc(names[1..], name);
      assert (names + [name])[1..] == names[1..] + [name];
      assert [COMMA, SPACE] + names[0] + (Others(names[1..]) + [COMMA, SPACE] + name)
          == [COMMA, SPACE] + names[0] + Others(names[1..]) + [COMMA, SPACE] + name;
    }
  }

  method SubprotocolHeader(names: seq<seq<byte>>) returns (result: seq<byte>)
    requires names != []
    ensures result == Join(names)
  {
    result := names[0];
    var i := 1;
    assert names[1..][..0] == [];
    while i < |names|
      invariant 1 <= i <= |names| && result == names[0] + Others(names[1..][..i - 1])
    {
      OthersSnoc(names[1..][..i - 1], names[i]);
      assert names[1..][..i] == names[1..][..i - 1] + [names[i]];
      assert names[0] + (Others(names[1..][..i - 1]) + [COMMA, SPACE] + names[i])
          == names[0] + Others(names[1..][..i - 1]) + [COMMA, SPACE] + names[i];
      result := result + [COMMA, SPACE] + names[i];
      i := i + 1;
    }
    assert names[1..][..i - 1] == names[1..];
  }

  function Plain(names: seq<seq<byte>>): (ps: seq<Parameter>)
    ensures |ps| == |names| && forall i :: 0 <= i < |ps| ==> ps[i] == Parameter(names[i], map[])
  {
    seq(|names|, i requires 0 <= i < |names| => Parameter(names[i], map[]))
  }

  lemma NoSpaceHere(s: seq<byte>, i: nat)
    requires i < |s| && !IsSpace(s[i]) && s[i] != CR
    ensures AllLws(s, i) == i
  {
    SkipIs(s, i, IsSpace, i);
  }

  lemma Cut(s: seq<byte>, j: nat, a: seq<byte>, b: seq<byte>)
    requires j <= |s| && s[j..] == a + b
    ensures var e := j + |a|; e <= |s| && s[j..e] == a && s[e..] == b
  {
    assert s[j..j + |a|] == s[j..][..|a|];
    assert s[j + |a|..] == s[j..][|a|..];
  }

  datatype Subprotocols = Listed(names: seq<seq<byte>>) | ParseError

  function Names(ps: seq<Parameter>): (names: seq<seq<byte>>)
    ensures |names| == |ps| && forall i :: 0 <= i < |ps| ==> names[i] == ps[i].name
  {
    seq(|ps|, i requires 0 <= i < |ps| => ps[i].name)
  }

  /** What a server makes of the header. */
  method ExtractSubprotocols(header: seq<byte>) returns (r: Subprotocols)
    ensures var (end, ps) := ParameterList(header, 0, []);
            r == if header == [] then Listed([]) else if end.None? then ParseError else Listed(Names(ps))
  {
    hide ParameterList;
    if header == [] {
      return Listed([]);
    }
    var end, ps := ExtractParameters(header, 0, []);
    if end == 0 {
      return ParseError;
    }
    var names, i := [], 0;
    while i < |ps|
      invariant 0 <= i <= |ps| && names == Names(ps)[..i]
    {
      assert Names(ps)[..i + 1] == Names(ps)[..i] + [ps[i].name];
      names := names + [ps[i].name];
      i := i + 1;
    }
    assert Names(ps)[..i] == Names(ps);
    r := Listed(names);
  }

  // ---------- lists printed with white space and read ----------

  /** Spaces and tabs, also after ends of line that continue the line. */
  predicate White(w: seq<byte>) {
    || w == []
    || (IsSpace(w[0]) && White(w[1..]))
    || (|w| > 2 && w[0] == CR && w[1] == LF && IsSpace(w[2]) && White(w[3..]))
  }

  /** What is not white space begins here, if anything. */
  predicate Visible(rest: seq<byte>) { rest == [] || (!IsSpace(rest[0]) && rest[0] != CR) }

  lemma {:induction false} SpacesFirst(w: seq<byte>) returns (n: nat)
    requires White(w)
    ensures n <= |w| && (forall k :: 0 <= k < n ==> IsSpace(w[k])) && (n < |w| ==> w[n] == CR) && White(w[n..])
  {
    if w != [] && IsSpace(w[0]) {
      n := SpacesFirst(w[1..]);
      n := n + 1;
      assert w[1..][n - 1..] == w[n..];
      assert forall k :: 1 <= k < n ==> w[k] == w[1..][k - 1];
    } else {
      n := 0;
      assert w[0..] == w;
    }
  }

  /** The first m octets of white space, which are read as one unit. */
  lemma UnitOf(w: seq<byte>) returns (first: nat, m: nat)
    requires White(w) && w != []
    ensures first <= m <= |w| && 0 < m && White(w[m..]) && (m < |w| ==> w[m] == CR)
    ensures forall k :: first <= k < m ==> IsSpace(w[k])
    ensures if w[0] == CR then first == 3 && w[1] == LF && IsSpace(w[2]) else first == 0
  {
    first := if w[0] == CR then 3 else 0;
    var n := SpacesFirst(w[first..]);
    m := first + n;
    assert w[first..][n..] == w[m..];
    assert forall k :: first <= k < m ==> w[k] == w[first..][k - first];
  }

  /** One unit of white space, and what is left of it. */
  lemma OneUnit(s: seq<byte>, i: nat, w: seq<byte>, rest: seq<byte>) returns (v: seq<byte>)
    requires White(w) && w != [] && Visible(rest) && i <= |s| && s[i..] == w + rest
    ensures White(v) && |v| < |w| && Lws(s, i) == i + |w| - |v| && s[i + |w| - |v|..] == v + rest
  {
    hide White, Skip;
    var first, m := UnitOf(w);
    v := w[m..];
    var a, j := w[..m], i + m;
    assert w == a + v;
    Associative(a, v, rest);
    Cut(s, i, a, v + rest);
    assert forall k :: i <= k < j ==> s[k] == s[i..j][k - i] == w[k - i];
    if j < |s| { assert s[j] == (v + rest)[0]; }
    SkipIs(s, i + first, IsSpace, j);
  }

  /** White space is read up to what follows it. */
  lemma {:induction false} SpaceHere(s: seq<byte>, i: nat, w: seq<byte>, rest: seq<byte>)
    requires White(w) && Visible(rest) && i <= |s| && s[i..] == w + rest
    ensures var j := i + |w|; j <= |s| && AllLws(s, i) == j && s[j..] == rest && AllLws(s, j) == j
    decreases |w|
  {
    hide White, Lws;
    Cut(s, i, w, rest);
    var j := i + |w|;
    if j < |s| {
      assert s[j] == rest[0];
      NoSpaceHere(s, j);
    } else {
      NothingToSkip(s);
    }
    if w != [] {
      var v := OneUnit(s, i, w, rest);
      if v != [] { SpaceHere(s, j - |v|, v, rest); }
    }
  }

  /** A token ends here. */
  predicate EndsToken(rest: seq<byte>) { rest == [] || !IsToken(rest[0]) }

  lemma SpaceEndsToken(w: seq<byte>, rest: seq<byte>)
    requires White(w) && EndsToken(rest)
    ensures EndsToken(w + rest)
  {
    hide IsToken;
    if w != [] { TokenIsVisible(w[0]); } else { assert w + rest == rest; }
  }

  lemma Delimiters()
    ensures !IsToken(COMMA) && !IsToken(SEMICOLON) && !IsToken(EQUALS) && !IsToken(QUOTE)
  {
    hide IsToken;
    TokenIsVisible(COMMA);
    TokenIsVisible(SEMICOLON);
    TokenIsVisible(EQUALS);
    TokenIsVisible(QUOTE);
  }

  /** A token lies here. */
  lemma TokenHere(s: seq<byte>, j: nat, token: seq<byte>, rest: seq<byte>)
    requires Acceptable(token) && EndsToken(rest) && j <= |s| && s[j..] == token + rest
    ensures var e := j + |token|;
            && j < e <= |s| && Skip(s, j, IsToken) == e && s[j..e] == token && s[e..] == rest && Quoted(s, j) == None
  {
    hide IsToken, Skip;
    var e := j + |token|;
    assert token[0] in token;
    TokenIsVisible(token[0]);
    Cut(s, j, token, rest);
    assert s[j] == token[0];
    if e < |s| { assert s[e] == rest[0]; }
    forall k | j <= k < e ensures IsToken(s[k]) {
      assert s[k] == token[k - j] && token[k - j] in token;
    }
    SkipIs(s, j, IsToken, e);
  }

  lemma TokenIsNext(token: seq<byte>, tail: seq<byte>)
    requires Acceptable(token)
    ensures token + tail != [] && Visible(token + tail)
  {
    hide IsToken;
    assert token[0] in token && (token + tail)[0] == token[0];
    TokenIsVisible(token[0]);
  }

  /** White space and then a token. */
  lemma TokenAfter(s: seq<byte>, i: nat, w: seq<byte>, token: seq<byte>, rest: seq<byte>)
    requires White(w) && Acceptable(token) && EndsToken(rest) && i <= |s| && s[i..] == w + (token + rest)
    ensures var j, e := i + |w|, i + |w| + |token|;
            && j < e <= |s| && AllLws(s, i) == j && Skip(s, j, IsToken) == e && s[j..e] == token && s[e..] == rest
  {
    hide AllLws, Skip, White, EndsToken, Acceptable, Visible;
    TokenIsNext(token, rest);
    SpaceHere(s, i, w, token + rest);
    TokenHere(s, i + |w|, token, rest);
  }

  datatype Value = Missing | Token(token: seq<byte>) | InQuotes(text: seq<byte>)

  /** An attribute and the white space before it, on both sides of the equals sign and after it. */
  datatype NameValue = NameValue(before: seq<byte>, name: seq<byte>, left: seq<byte>, right: seq<byte>, value: Value,
                                 after: seq<byte>)

  predicate Printable(a: NameValue) {
    && White(a.before) && White(a.left) && White(a.right) && White(a.after)
    && Acceptable(a.name) && (a.value.Token? ==> Acceptable(a.value.token))
    && (a.value.InQuotes? ==> !EndsInBackslash(a.value.text))
  }

  /** An attribute and what follows it. */
  function Printed(a: NameValue, rest: seq<byte>): seq<byte> {
    a.before +
    (a.name +
     match a.value
     case Missing => a.after + rest
     case Token(v) => a.left + ([EQUALS] + (a.right + (v + (a.after + rest))))
     case InQuotes(v) => a.left + ([EQUALS] + (a.right + ([QUOTE] + (Escaped(v) + [QUOTE]) + (a.after + rest)))))
  }

  /** Attributes, separated by semicolons, and what follows them. */
  function PrintedList(list: seq<NameValue>, rest: seq<byte>): seq<byte>
    requires list != []
  {
    Printed(list[0], if |list| == 1 then rest else [SEMICOLON] + PrintedList(list[1..], rest))
  }

  /** What a reader is to store: the last value of each name. */
  function Stored(found: Attributes, list: seq<NameValue>): Attributes
    decreases |list|
  {
    if list == [] then found
    else
      Stored(found[list[0].name := Text(list[0].value)], list[1..])
  }

  function Text(v: Value): seq<byte> {
    match v case Missing => [] case Token(t) => t case InQuotes(t) => t
  }

  /** What may follow a list of attributes, or one of them. */
  predicate Stops(rest: seq<byte>) { rest == [] || rest[0] == COMMA }

  predicate Separates(rest: seq<byte>) { rest == [] || rest[0] in {COMMA, SEMICOLON} }

  lemma SeparatesIsVisible(rest: seq<byte>)
    requires Separates(rest)
    ensures Visible(rest) && EndsToken(rest) && (rest != [] ==> rest[0] != EQUALS)
  {
    hide IsToken;
    Delimiters();
  }

  /** An attribute whose name lies from j to n, with the next visible octet at q. */
  lemma AttributeUnfolds(s: seq<byte>, i: nat, j: nat, n: nat, q: nat)
    requires i <= j < n <= q <= |s| && AllLws(s, i) == j && Skip(s, j, IsToken) == n && AllLws(s, n) == q
    ensures q == |s| || s[q] != EQUALS ==> Attribute(s, i) == Some((s[j..n], [], q))
    ensures q < |s| && s[q] == EQUALS ==>
              var v := AllLws(s, q + 1);
              v < |s| ==>
                Attribute(s, i) ==
                if Quoted(s, v).Some? then Some((s[j..n], Quoted(s, v).value.0, Quoted(s, v).value.1))
                else if Skip(s, v, IsToken) == v then None
                else Some((s[j..n], s[v..Skip(s, v, IsToken)], Skip(s, v, IsToken)))
  {
    hide AllLws, Skip, Quoted;
  }

  lemma MissingHere(s: seq<byte>, i: nat, a: NameValue, rest: seq<byte>)
    requires Printable(a) && a.value.Missing? && Separates(rest) && i <= |s| && s[i..] == Printed(a, rest)
    ensures var e := i + |a.before| + |a.name| + |a.after|;
            e <= |s| && s[e..] == rest && Attribute(s, i) == Some((a.name, [], e))
  {
    hide AllLws, IsToken, Skip, Quoted, Acceptable, Attribute, White;
    var j := i + |a.before|;
    SeparatesIsVisible(rest);
    SpaceEndsToken(a.after, rest);
    TokenAfter(s, i, a.before, a.name, a.after + rest);
    SpaceHere(s, j + |a.name|, a.after, rest);
    var e := j + |a.name| + |a.after|;
    if e < |s| { assert s[e] == rest[0]; }
    AttributeUnfolds(s, i, j, j + |a.name|, e);
  }

  /** An equals sign with white space on both sides, and a value. */
  lemma EqualsHere(s: seq<byte>, n: nat, left: seq<byte>, right: seq<byte>, tail: seq<byte>)
    requires White(left) && White(right) && Visible(tail)
    requires n <= |s| && s[n..] == left + ([EQUALS] + (right + tail))
    ensures var q := n + |left|;
            var v := q + 1 + |right|;
            && v <= |s| && s[q] == EQUALS && s[v..] == tail && AllLws(s, n) == q && AllLws(s, q + 1) == v
  {
    hide AllLws, White;
    var q := n + |left|;
    assert Visible([EQUALS] + (right + tail));
    SpaceHere(s, n, left, [EQUALS] + (right + tail));
    Cut(s, q, [EQUALS], right + tail);
    assert s[q..q + 1][0] == EQUALS;
    SpaceHere(s, q + 1, right, tail);
  }

  /** A name and an equals sign, with white space; the value begins at v. */
  lemma NameAndEquals(s: seq<byte>, i: nat, a: NameValue, tail: seq<byte>)
    requires White(a.before) && White(a.left) && White(a.right) && Acceptable(a.name) && tail != [] && Visible(tail)
    requires i <= |s| && s[i..] == a.before + (a.name + (a.left + ([EQUALS] + (a.right + tail))))
    ensures var j := i + |a.before|;
            var n := j + |a.name|;
            var q := n + |a.left|;
            var v := q + 1 + |a.right|;
            && j < n <= q < v < |s| && s[j..n] == a.name && s[q] == EQUALS && s[v..] == tail
            && AllLws(s, i) == j && Skip(s, j, IsToken) == n && AllLws(s, n) == q && AllLws(s, q + 1) == v
  {
    hide AllLws, IsToken, Skip, Acceptable, White, Visible, Quoted;
    var later := a.left + ([EQUALS] + (a.right + tail));
    Delimiters();
    SpaceEndsToken(a.left, [EQUALS] + (a.right + tail));
    TokenAfter(s, i, a.before, a.name, later);
    EqualsHere(s, i + |a.before| + |a.name|, a.left, a.right, tail);
  }

  lemma TokenPrinted(a: NameValue, rest: seq<byte>)
    requires Printable(a) && a.value.Token? && Separates(rest)
    ensures var tail := a.after + rest;
            && Printed(a, rest) == a.before + (a.name + (a.left + ([EQUALS] + (a.right + (a.value.token + tail)))))
            && White(a.before) && White(a.left) && White(a.right) && Acceptable(a.name) && Acceptable(a.value.token)
            && EndsToken(tail)
  {
    hide IsToken, White, Escaped, EndsInBackslash, Acceptable, Separates;
    SeparatesIsVisible(rest);
    SpaceEndsToken(a.after, rest);
  }

  lemma TokenValueHere(s: seq<byte>, i: nat, a: NameValue, rest: seq<byte>) returns (e: nat)
    requires Printable(a) && a.value.Token? && Separates(rest) && i <= |s| && s[i..] == Printed(a, rest)
    ensures i < e <= |s| && s[e..] == a.after + rest && Attribute(s, i) == Some((a.name, a.value.token, e))
  {
    hide *;
    TokenPrinted(a, rest);
    var t, tail := a.value.token, a.after + rest;
    TokenIsNext(t, tail);
    NameAndEquals(s, i, a, t + tail);
    e := TokenIsRead(s, i, i + |a.before|, |a.name|, |a.left|, |a.right|, t, tail);
  }

  lemma TokenIsRead(s: seq<byte>, i: nat, j: nat, name: nat, left: nat, right: nat, t: seq<byte>, tail: seq<byte>)
    returns (e: nat)
    requires Acceptable(t) && EndsToken(tail) && 0 < name
    requires var n := j + name;
             var q := n + left;
             var v := q + 1 + right;
             && i <= j < n <= q < v <= |s| && s[q] == EQUALS && s[v..] == t + tail
             && AllLws(s, i) == j && Skip(s, j, IsToken) == n && AllLws(s, n) == q && AllLws(s, q + 1) == v
    ensures i < e <= |s| && s[e..] == tail && Attribute(s, i) == Some((s[j..j + name], t, e))
  {
    hide *;
    var v := j + name + left + 1 + right;
    TokenHere(s, v, t, tail);
    e := v + |t|;
    TokenUnfolds(s, i, j, j + name, j + name + left, v, e);
  }

  lemma TokenUnfolds(s: seq<byte>, i: nat, j: nat, n: nat, q: nat, v: nat, e: nat)
    requires i <= j < n <= q < v < e <= |s| && AllLws(s, i) == j && Skip(s, j, IsToken) == n && AllLws(s, n) == q
    requires s[q] == EQUALS && AllLws(s, q + 1) == v && Quoted(s, v) == None && Skip(s, v, IsToken) == e
    ensures Attribute(s, i) == Some((s[j..n], s[v..e], e))
  {
    hide AllLws, Skip, Quoted;
    AttributeUnfolds(s, i, j, n, q);
  }

  lemma QuotedPrinted(a: NameValue, rest: seq<byte>)
    requires Printable(a) && a.value.InQuotes?
    ensures var value := [QUOTE] + (Escaped(a.value.text) + [QUOTE]);
            var tail := a.after + rest;
            && Printed(a, rest) == a.before + (a.name + (a.left + ([EQUALS] + (a.right + (value + tail)))))
            && White(a.before) && White(a.left) && White(a.right) && Acceptable(a.name)
            && !EndsInBackslash(a.value.text)
            && value + tail != [] && Visible(value + tail)
  {
    hide IsToken, White, Escaped, EndsInBackslash, Acceptable;
    assert ([QUOTE] + (Escaped(a.value.text) + [QUOTE]) + (a.after + rest))[0] == QUOTE;
  }

  lemma QuotedValueHere(s: seq<byte>, i: nat, a: NameValue, rest: seq<byte>) returns (e: nat)
    requires Printable(a) && a.value.InQuotes? && i <= |s| && s[i..] == Printed(a, rest)
    ensures i < e <= |s| && s[e..] == a.after + rest && Attribute(s, i) == Some((a.name, a.value.text, e))
  {
    hide *;
    QuotedPrinted(a, rest);
    var value, tail := [QUOTE] + (Escaped(a.value.text) + [QUOTE]), a.after + rest;
    NameAndEquals(s, i, a, value + tail);
    e := QuotedIsRead(s, i, i + |a.before|, |a.name|, |a.left|, |a.right|, a.value.text, tail);
  }

  lemma QuotedIsRead(s: seq<byte>, i: nat, j: nat, name: nat, left: nat, right: nat, text: seq<byte>, tail: seq<byte>)
    returns (e: nat)
    requires !EndsInBackslash(text) && 0 < name
    requires var n := j + name;
             var q := n + left;
             var v := q + 1 + right;
             && i <= j < n <= q < v < |s| && s[q] == EQUALS && s[v..] == [QUOTE] + (Escaped(text) + [QUOTE]) + tail
             && AllLws(s, i) == j && Skip(s, j, IsToken) == n && AllLws(s, n) == q && AllLws(s, q + 1) == v
    ensures i < e <= |s| && s[e..] == tail && Attribute(s, i) == Some((s[j..j + name], text, e))
  {
    hide *;
    var v := j + name + left + 1 + right;
    QuotedHere(s, v, text, tail);
    Cut(s, v, [QUOTE] + (Escaped(text) + [QUOTE]), tail);
    e := v + |[QUOTE] + (Escaped(text) + [QUOTE])|;
    AttributeUnfolds(s, i, j, j + name, j + name + left);
  }

  lemma QuotedHere(s: seq<byte>, q: nat, v: seq<byte>, rest: seq<byte>)
    requires !EndsInBackslash(v) && q <= |s| && s[q..] == [QUOTE] + (Escaped(v) + [QUOTE]) + rest
    ensures q < |s| && Quoted(s, q) == Some((v, q + |Escaped(v)| + 2))
  {
    hide QuotedRest, Escaped;
    Associative([QUOTE], Escaped(v) + [QUOTE], rest);
    Cut(s, q, [QUOTE], Escaped(v) + [QUOTE] + rest);
    assert s[q] == s[q..q + 1][0] == QUOTE;
    QuotedFrom(s, q + 1, v, rest, []);
    assert [] + v == v;
  }

  /** An attribute is read up to its end, or up to the white space after its value. */
  lemma AttributeHere(s: seq<byte>, i: nat, a: NameValue, rest: seq<byte>) returns (e: nat, w: seq<byte>)
    requires Printable(a) && Separates(rest) && i <= |s| && s[i..] == Printed(a, rest)
    ensures i < e <= |s| && White(w) && s[e..] == w + rest && Attribute(s, i) == Some((a.name, Text(a.value), e))
  {
    hide Printed, Attribute, Escaped, Separates;
    match a.value {
      case Missing =>
        MissingHere(s, i, a, rest);
        e, w := i + |a.before| + |a.name| + |a.after|, [];
        assert [] + rest == rest;
      case Token(_) =>
        e := TokenValueHere(s, i, a, rest);
        w := a.after;
      case InQuotes(_) =>
        e := QuotedValueHere(s, i, a, rest);
        w := a.after;
    }
  }

  /** After the first attribute, each is preceded by a semicolon. */
  lemma AttributeListStep(s: seq<byte>, i: nat, first: bool, found: Attributes, j: nat, name: seq<byte>, v: seq<byte>,
                          e: nat)
    requires i <= j < |s| && AllLws(s, i) == j && e <= |s|
    requires (first || s[j] == SEMICOLON) && Attribute(s, if first then j else j + 1) == Some((name, v, e))
    ensures i < e && AttributeList(s, i, first, found) == AttributeList(s, e, false, found[name := v])
  {
    hide AllLws, Attribute;
  }

  lemma AttributeListStops(s: seq<byte>, e: nat, w: seq<byte>, rest: seq<byte>, found: Attributes)
    requires e <= |s| && White(w) && Stops(rest) && s[e..] == w + rest
    ensures AttributeList(s, e, false, found) == Some((found, |s| - |rest|)) && s[|s| - |rest|..] == rest
  {
    hide AllLws, White;
    SeparatesIsVisible(rest);
    SpaceHere(s, e, w, rest);
    if rest != [] { assert s[|s| - |rest|] == rest[0]; }
  }

  /** An attribute without the white space before it. */
  lemma NoSpaceBefore(a: NameValue, rest: seq<byte>)
    requires Printable(a)
    ensures Printable(a.(before := [])) && Printed(a, rest) == a.before + Printed(a.(before := []), rest)
    ensures Visible(Printed(a.(before := []), rest)) && Printed(a.(before := []), rest) != []
  {
    hide IsToken, Escaped;
    assert a.name[0] in a.name;
    TokenIsVisible(a.name[0]);
  }

  /** The first attribute of a list is read, or one after white space and a semicolon. */
  lemma FirstAttribute(s: seq<byte>, i: nat, a: NameValue, later: seq<byte>, found: Attributes)
    returns (e: nat, v: seq<byte>)
    requires Printable(a) && Separates(later) && i <= |s| && s[i..] == Printed(a, later)
    ensures i < e <= |s| && White(v) && s[e..] == v + later
    ensures AttributeList(s, i, true, found) == AttributeList(s, e, false, found[a.name := Text(a.value)])
  {
    hide AllLws, Attribute, AttributeList, Printed, Printable, Text, White, Separates;
    var b, j := a.(before := []), i + |a.before|;
    NoSpaceBefore(a, later);
    SpaceIsWhite(a);
    SpaceHere(s, i, a.before, Printed(b, later));
    e, v := AttributeHere(s, j, b, later);
    AttributeListStep(s, i, true, found, j, a.name, Text(a.value), e);
  }

  lemma NextAttribute(s: seq<byte>, i: nat, w: seq<byte>, a: NameValue, later: seq<byte>, found: Attributes)
    returns (e: nat, v: seq<byte>)
    requires Printable(a) && Separates(later) && White(w)
    requires i <= |s| && s[i..] == w + ([SEMICOLON] + Printed(a, later))
    ensures i < e <= |s| && White(v) && s[e..] == v + later
    ensures AttributeList(s, i, false, found) == AttributeList(s, e, false, found[a.name := Text(a.value)])
  {
    hide AllLws, Attribute, AttributeList, Printed, Printable, Text, White, Separates;
    var j := i + |w|;
    SpaceHere(s, i, w, [SEMICOLON] + Printed(a, later));
    Cut(s, j, [SEMICOLON], Printed(a, later));
    assert s[j..j + 1][0] == SEMICOLON;
    e, v := AttributeHere(s, j + 1, a, later);
    AttributeListStep(s, i, false, found, j, a.name, Text(a.value), e);
  }

  /** The attributes from position i on, which is that of the first or of white space and a semicolon before one. */
  lemma {:induction false} AttributesFrom(s: seq<byte>, i: nat, first: bool, w: seq<byte>, list: seq<NameValue>,
                                          rest: seq<byte>, found: Attributes)
    requires list != [] && (forall a :: a in list ==> Printable(a)) && Stops(rest) && White(w) && i <= |s|
    requires s[i..] == if first then PrintedList(list, rest) else w + ([SEMICOLON] + PrintedList(list, rest))
    ensures |rest| <= |s| && s[|s| - |rest|..] == rest
    ensures AttributeList(s, i, first, found) == Some((Stored(found, list), |s| - |rest|))
    decreases |list|
  {
    hide AttributeList, Printed, Printable, Text, White;
    var a, more := list[0], list[1..];
    assert a in list;
    var later := if |list| == 1 then rest else [SEMICOLON] + PrintedList(more, rest);
    assert Separates(later) && PrintedList(list, rest) == Printed(a, later);
    var e, v;
    if first {
      e, v := FirstAttribute(s, i, a, later, found);
    } else {
      e, v := NextAttribute(s, i, w, a, later, found);
    }
    var next := found[a.name := Text(a.value)];
    if more == [] {
      AttributeListStops(s, e, v, rest, next);
      assert Stored(next, []) == next;
    } else {
      AttributesFrom(s, e, false, v, more, rest, next);
    }
  }

  lemma SpaceIsWhite(a: NameValue)
    requires Printable(a)
    ensures White(a.before)
  {
  }

  /**
   A list of attributes, each without a value, with a token or with a quoted value that does not end
   in a backslash, and with any white space around the names and values, is read up to its end, and
   each name has its last value.
   */
  lemma AttributesRoundTrip(list: seq<NameValue>, rest: seq<byte>)
    requires list != [] && (forall a :: a in list ==> Printable(a)) && Stops(rest)
    ensures var s := PrintedList(list, rest);
            && |rest| <= |s| && s[|s| - |rest|..] == rest
            && AttributeList(s, 0, true, map[]) == Some((Stored(map[], list), |s| - |rest|))
  {
    hide White, PrintedList, AttributeList, Printable, Stored;
    var s := PrintedList(list, rest);
    assert s[0..] == s;
    NoSpace();
    AttributesFrom(s, 0, true, [], list, rest, map[]);
  }

  // ---------- parameters printed and read ----------

  /** A parameter, the white space before and after its name, and its attributes. */
  datatype Entry = Entry(before: seq<byte>, name: seq<byte>, after: seq<byte>, list: seq<NameValue>)

  predicate Enterable(p: Entry) {
    White(p.before) && White(p.after) && Acceptable(p.name) && forall a :: a in p.list ==> Printable(a)
  }

  function PrintedEntry(p: Entry, rest: seq<byte>): seq<byte> {
    p.before + (p.name + (p.after + if p.list == [] then rest else [SEMICOLON] + PrintedList(p.list, rest)))
  }

  function PrintedEntries(ps: seq<Entry>): seq<byte> {
    if ps == [] then [] else PrintedEntry(ps[0], if |ps| == 1 then [] else [COMMA] + PrintedEntries(ps[1..]))
  }

  function Meant(ps: seq<Entry>): seq<Parameter> {
    if ps == [] then [] else [Parameter(ps[0].name, Stored(map[], ps[0].list))] + Meant(ps[1..])
  }

  lemma ParameterUnfolds(s: seq<byte>, i: nat, n: nat, j: nat, rest: seq<byte>, attributes: Attributes)
    requires i < n <= j <= |s| && Skip(s, i, IsToken) == n && AllLws(s, n) == j && |rest| <= |s|
    requires if j == |s| || s[j] != SEMICOLON then attributes == map[] && j == |s| - |rest|
             else j + 1 < |s| && AttributeList(s, j + 1, true, map[]) == Some((attributes, |s| - |rest|))
    ensures ParameterAt(s, i) == Some((Parameter(s[i..n], attributes), |s| - |rest|))
  {
    hide AllLws, AttributeList, Skip;
  }

  /** What follows the name of a parameter: the end, a comma or its attributes. */
  lemma ListHere(s: seq<byte>, k: nat, list: seq<NameValue>, rest: seq<byte>)
    requires (forall a :: a in list ==> Printable(a)) && Stops(rest) && k <= |s|
    requires s[k..] == if list == [] then rest else [SEMICOLON] + PrintedList(list, rest)
    ensures |rest| <= |s| && s[|s| - |rest|..] == rest
    ensures if k == |s| || s[k] != SEMICOLON then list == [] && k == |s| - |rest|
            else
              && list != [] && k + 1 < |s|
              && AttributeList(s, k + 1, true, map[]) == Some((Stored(map[], list), |s| - |rest|))
  {
    hide IsToken, Attribute, White, PrintedList, Printable, AttributeList, Stored;
    if list == [] {
      if rest != [] { assert s[k] == rest[0]; }
    } else {
      Cut(s, k, [SEMICOLON], PrintedList(list, rest));
      assert s[k..k + 1][0] == SEMICOLON;
      PrintedIsNotEmpty(list, rest);
      NoSpace();
      AttributesFrom(s, k + 1, true, [], list, rest, map[]);
    }
  }

  /** A name and white space; the rest of the parameter begins at k. */
  lemma EntryName(s: seq<byte>, i: nat, p: Entry, tail: seq<byte>)
    requires White(p.before) && White(p.after) && Acceptable(p.name) && Separates(tail)
    requires i <= |s| && s[i..] == p.before + (p.name + (p.after + tail))
    ensures var j := i + |p.before|;
            var n := j + |p.name|;
            var k := n + |p.after|;
            && j < n <= k <= |s| && s[j..n] == p.name && s[k..] == tail
            && AllLws(s, i) == j && Skip(s, j, IsToken) == n && AllLws(s, n) == k
  {
    hide AllLws, IsToken, Skip, Acceptable, White, Visible, Separates;
    SeparatesIsVisible(tail);
    var later := p.after + tail;
    SpaceEndsToken(p.after, tail);
    TokenAfter(s, i, p.before, p.name, later);
    SpaceHere(s, i + |p.before| + |p.name|, p.after, tail);
  }

  /** A parameter is read as it was printed. */
  lemma ParameterRoundTrip(s: seq<byte>, i: nat, p: Entry, rest: seq<byte>)
    requires Enterable(p) && Stops(rest) && i <= |s| && s[i..] == PrintedEntry(p, rest)
    ensures var j := i + |p.before|;
            && j < |s| && AllLws(s, i) == j && |rest| <= |s| && s[|s| - |rest|..] == rest
            && ParameterAt(s, j) == Some((Parameter(p.name, Stored(map[], p.list)), |s| - |rest|))
            && AllLws(s, |s| - |rest|) == |s| - |rest|
  {
    hide White, Acceptable, Printable, IsToken, AllLws, Skip, ParameterAt, PrintedList, Stored, AttributeList;
    var tail := if p.list == [] then rest else [SEMICOLON] + PrintedList(p.list, rest);
    SeparatesIsVisible(rest);
    EntryName(s, i, p, tail);
    ListIsRead(s, i + |p.before|, i + |p.before| + |p.name|, i + |p.before| + |p.name| + |p.after|, p.list, rest);
  }

  lemma ListIsRead(s: seq<byte>, j: nat, n: nat, k: nat, list: seq<NameValue>, rest: seq<byte>)
    requires (forall a :: a in list ==> Printable(a)) && Stops(rest) && Visible(rest)
    requires j < n <= k <= |s| && Skip(s, j, IsToken) == n && AllLws(s, n) == k
    requires s[k..] == if list == [] then rest else [SEMICOLON] + PrintedList(list, rest)
    ensures |rest| <= |s| && s[|s| - |rest|..] == rest && AllLws(s, |s| - |rest|) == |s| - |rest|
    ensures ParameterAt(s, j) == Some((Parameter(s[j..n], Stored(map[], list)), |s| - |rest|))
  {
    assert list == [] ==> Stored(map[], list) == map[];
    hide *;
    ListHere(s, k, list, rest);
    ParameterUnfolds(s, j, n, k, rest, Stored(map[], list));
    NothingHere(s, |s| - |rest|, rest);
  }

  lemma NothingHere(s: seq<byte>, e: nat, rest: seq<byte>)
    requires e <= |s| && s[e..] == rest && Visible(rest)
    ensures AllLws(s, e) == e
  {
    if e < |s| { NoSpaceHere(s, e); }
  }

  lemma NoSpace()
    ensures White([])
  {
  }

  lemma PrintedIsNotEmpty(list: seq<NameValue>, rest: seq<byte>)
    requires list != [] && forall a :: a in list ==> Printable(a)
    ensures PrintedList(list, rest) != []
  {
    assert list[0] in list;
  }

  /** After a parameter there is the end, or a comma and another one. */
  lemma EntryStep(s: seq<byte>, i: nat, j: nat, p: Parameter, e: nat, found: seq<Parameter>)
    requires i <= j < |s| && AllLws(s, i) == j && ParameterAt(s, j) == Some((p, e)) && e <= |s| && AllLws(s, e) == e
    ensures e == |s| ==> ParameterList(s, i, found) == (Some(|s|), found + [p])
    ensures e + 1 < |s| && s[e] == COMMA ==> ParameterList(s, i, found) == ParameterList(s, e + 1, found + [p])
  {
    hide AllLws, ParameterAt;
  }

  lemma {:induction false} ParametersFrom(s: seq<byte>, i: nat, ps: seq<Entry>, found: seq<Parameter>)
    requires ps != [] && (forall p :: p in ps ==> Enterable(p)) && i <= |s| && s[i..] == PrintedEntries(ps)
    ensures ParameterList(s, i, found) == (Some(|s|), found + Meant(ps))
    decreases |ps|
  {
    hide AllLws, ParameterAt, ParameterList, PrintedEntry, Enterable;
    var p, more := ps[0], ps[1..];
    assert p in ps;
    var rest := if |ps| == 1 then [] else [COMMA] + PrintedEntries(more);
    ParameterRoundTrip(s, i, p, rest);
    var read := Parameter(p.name, Stored(map[], p.list));
    EntryStep(s, i, i + |p.before|, read, |s| - |rest|, found);
    if more == [] {
      assert Meant(ps) == [read] + [] == [read];
    } else {
      var e := |s| - |rest|;
      Cut(s, e, [COMMA], PrintedEntries(more));
      assert s[e..e + 1][0] == COMMA;
      assert more[0] in ps;
      EntriesAreNotEmpty(more);
      ParametersFrom(s, e + 1, more, found + [read]);
      Associative(found, [read], Meant(more));
    }
  }

  lemma EntriesAreNotEmpty(ps: seq<Entry>)
    requires ps != [] && Enterable(ps[0])
    ensures PrintedEntries(ps) != []
  {
  }

  /** A list of parameters, with attributes and with white space wherever it may be, is read as it was printed. */
  lemma ParametersRoundTrip(ps: seq<Entry>)
    requires ps != [] && forall p :: p in ps ==> Enterable(p)
    ensures ParameterList(PrintedEntries(ps), 0, []) == (Some(|PrintedEntries(ps)|), Meant(ps))
  {
    hide ParameterList, PrintedEntries, Enterable;
    assert PrintedEntries(ps)[0..] == PrintedEntries(ps);
    ParametersFrom(PrintedEntries(ps), 0, ps, []);
    assert [] + Meant(ps) == Meant(ps);
  }

  // ---------- the round trip of subprotocols ----------

  /** The names as parameters without attributes, with one space before each. */
  function Spaced(names: seq<seq<byte>>): (ps: seq<Entry>)
    ensures |ps| == |names| && forall i :: 0 <= i < |ps| ==> ps[i] == Entry([SPACE], names[i], [], [])
  {
    seq(|names|, i requires 0 <= i < |names| => Entry([SPACE], names[i], [], []))
  }

  lemma {:induction false} OthersArePrinted(names: seq<seq<byte>>)
    requires names != []
    ensures [COMMA] + PrintedEntries(Spaced(names)) == Others(names)
    decreases |names|
  {
    assert Spaced(names)[1..] == Spaced(names[1..]);
    var rest := if |names| == 1 then [] else [COMMA] + PrintedEntries(Spaced(names[1..]));
    if |names| > 1 { OthersArePrinted(names[1..]); }
    assert rest == Others(names[1..]);
    assert [] + rest == rest;
    assert PrintedEntries(Spaced(names)) == [SPACE] + (names[0] + rest);
    assert [COMMA] + ([SPACE] + (names[0] + rest)) == [COMMA, SPACE] + names[0] + rest;
  }

  lemma {:induction false} PlainIsMeant(names: seq<seq<byte>>)
    ensures Meant(Spaced(names)) == Plain(names)
    decreases |names|
  {
    if names != [] {
      PlainIsMeant(names[1..]);
      assert Spaced(names)[1..] == Spaced(names[1..]);
      assert Plain(names) == [Parameter(names[0], map[])] + Plain(names[1..]);
    }
  }

  /** The list a client sends is read by a server as the names the client added, to the last octet. */
  lemma SubprotocolRoundTrip(names: seq<seq<byte>>)
    requires names != [] && forall n :: n in names ==> Acceptable(n)
    ensures ParameterList(Join(names), 0, []) == (Some(|Join(names)|), Plain(names))
    ensures Names(Plain(names)) == names
  {
    hide ParameterList, Acceptable, Others;
    var first, more := Entry([], names[0], [], []), Spaced(names[1..]);
    var ps := [first] + more;
    assert ps[1..] == more;
    assert White([]) && White([SPACE]) by { assert [SPACE][1..] == []; }
    assert forall p :: p in ps ==> Enterable(p);
    var rest := Others(names[1..]);
    if more != [] { OthersArePrinted(names[1..]); } else { NoOthers(); }
    assert [] + rest == rest && [] + (names[0] + rest) == names[0] + rest;
    assert PrintedEntries(ps) == Join(names);
    ParametersRoundTrip(ps);
    PlainIsMeant(names[1..]);
    assert Meant(ps) == [Parameter(names[0], map[])] + Plain(names[1..]) == Plain(names);
  }

  lemma NoOthers()
    ensures Others([]) == []
  {
  }
}
