/** The two printers of SocketUtils.cpp: hardware addresses and dotted quads. */
module Printers {
  import opened Posix
  import opened Text

  // ---- getHardwareAddress

  function Hex(b: byte): string { Numeral(b, 16, true) }

  function Tokens(bytes: seq<byte>): (t: seq<string>)
    ensures |t| == |bytes|
  {
    seq(|bytes|, i requires 0 <= i < |bytes| => Hex(bytes[i]))
  }

  /** Only the first byte is padded to two digits. */
  function MacText(bytes: seq<byte>, sep: char): string
    requires bytes != []
  {
    Join([Pad(Hex(bytes[0]), 2, '0')] + Tokens(bytes[1..]), sep)
  }

  method HardwareAddressText(data: seq<byte>, separationChar: char) returns (s: string)
    requires |data| == 14
    ensures s == MacText(data[..6], separationChar)
  {
    hide IntText, Numeral, Hex, Pad, MacText, Rest;
    var str := new OStringStream();
    str.base, str.width, str.fill := 16, 2, '0';
    for i := 0 to 5
      invariant str.base == 16 && str.fill == '0' && str.width == (if i == 0 then 2 else 0)
      invariant i > 0 ==> str.upper
      invariant i == 0 ==> str.text == ""
      invariant i > 0 ==> str.text + Rest(data, i, separationChar) == MacText(data[..6], separationChar)
    {
      ghost var before := str.text;
      str.upper := true;
      str.PutInt(data[i]);
      str.PutChar(separationChar);
      NextToken(data, i, separationChar, before, str.text);
    }
    str.upper := true;
    str.PutInt(data[5]);
    LastToken(data, separationChar);
    return str.text;
  }

  function Rest(data: seq<byte>, i: nat, sep: char): string
    requires i <= 6 <= |data|
  {
    Join(Tokens(data[i..6]), sep)
  }

  lemma NextToken(data: seq<byte>, i: nat, sep: char, before: string, after: string)
    requires i < 5 && |data| == 14
    requires after == before + Pad(IntText(data[i], 16, true), if i == 0 then 2 else 0, '0') + Pad([sep], 0, '0')
    ensures i == 0 && before == "" ==> after + Rest(data, 1, sep) == MacText(data[..6], sep)
    ensures i > 0 ==> after + Rest(data, i + 1, sep) == before + Rest(data, i, sep)
  {
    assert data[..6][1..] == data[1..6];
    assert Tokens(data[i..6])[1..] == Tokens(data[i + 1..6]);
    var tokens := [Pad(Hex(data[0]), 2, '0')] + Tokens(data[1..6]);
    assert tokens[1..] == Tokens(data[1..6]);
  }

  lemma LastToken(data: seq<byte>, sep: char)
    requires |data| == 14
    ensures Rest(data, 5, sep) == Pad(IntText(data[5], 16, true), 0, '0')
  {
    assert Tokens(data[5..6]) == [Hex(data[5])];
  }

  function ReadMac(s: string, sep: char): seq<nat> {
    var tokens := Split(s, sep);
    seq(|tokens|, i requires 0 <= i < |tokens| => Value(tokens[i], 16))
  }

  predicate HexDigit(c: char) { IsDigit(c, 16) }

  lemma HexReads(b: byte)
    ensures Value(Hex(b), 16) == b && Value(Pad(Hex(b), 2, '0'), 16) == b
    ensures |Hex(b)| == (if b < 16 then 1 else 2) && |Pad(Hex(b), 2, '0')| == 2
    ensures forall c :: c in Hex(b) || c in Pad(Hex(b), 2, '0') ==> HexDigit(c)
  {
    NumeralReads(b, 16, true);
    if b < 16 {
      var s := Pad(Hex(b), 2, '0');
      assert s == ['0', Digit(b, true)];
      assert s[..1] == "0" && "0"[..0] == "" && Value("0", 16) == 0;
    } else {
      assert Hex(b) == [Digit(b / 16, true), Digit(b % 16, true)];
    }
  }

  /** With a separator that is no hexadecimal digit, splitting the text and reading the parts gives the
      bytes back, although most of them are printed without a leading zero. */
  lemma MacReadsBack(bytes: seq<byte>, sep: char)
    requires bytes != [] && !HexDigit(sep)
    ensures ReadMac(MacText(bytes, sep), sep) == bytes
  {
    var tokens := [Pad(Hex(bytes[0]), 2, '0')] + Tokens(bytes[1..]);
    forall i | 0 <= i < |tokens| ensures sep !in tokens[i] && Value(tokens[i], 16) == bytes[i] {
      HexReads(bytes[i]);
    }
    SplitJoin(tokens, sep);
  }

  lemma {:induction false} JoinedWidth(bytes: seq<byte>, sep: char)
    ensures |Join(Tokens(bytes), sep)| <= if bytes == [] then 0 else 3 * |bytes| - 1
    ensures bytes != [] ==>
      (|Join(Tokens(bytes), sep)| == 3 * |bytes| - 1 <==> forall i :: 0 <= i < |bytes| ==> bytes[i] >= 16)
  {
    if bytes != [] {
      HexReads(bytes[0]);
      JoinedWidth(bytes[1..], sep);
      assert Tokens(bytes)[1..] == Tokens(bytes[1..]);
      assert forall i :: 0 < i < |bytes| ==> bytes[i] == bytes[1..][i - 1];
      if |bytes| > 1 && forall i :: 0 <= i < |bytes[1..]| ==> bytes[1..][i] >= 16 {
        assert forall i :: 0 < i < |bytes| ==> bytes[i] >= 16;
      }
    }
  }

  /** The text has the usual fixed width exactly when no byte after the first is below 16. */
  lemma MacWidth(bytes: seq<byte>, sep: char)
    requires bytes != []
    ensures |MacText(bytes, sep)| == 3 * |bytes| - 1 <==> forall i :: 1 <= i < |bytes| ==> bytes[i] >= 16
  {
    HexReads(bytes[0]);
    JoinedWidth(bytes[1..], sep);
    var tokens := [Pad(Hex(bytes[0]), 2, '0')] + Tokens(bytes[1..]);
    assert tokens[1..] == Tokens(bytes[1..]);
    assert forall i :: 1 <= i < |bytes| ==> bytes[i] == bytes[1..][i - 1];
    if |bytes| > 1 && forall i :: 0 <= i < |bytes[1..]| ==> bytes[1..][i] >= 16 {
      assert forall i :: 1 <= i < |bytes| ==> bytes[i] >= 16;
    }
    if |bytes| > 1 && forall i :: 1 <= i < |bytes| ==> bytes[i] >= 16 {
      assert forall i :: 0 <= i < |bytes[1..]| ==> bytes[1..][i] == bytes[i + 1];
    }
  }

  // ---- which separators make the text unambiguous

  function Tail(bytes: seq<byte>, sep: char): string { if bytes == [] then "" else [sep] + Join(Tokens(bytes), sep) }

  lemma JoinCons(bytes: seq<byte>, sep: char)
    requires bytes != []
    ensures Join(Tokens(bytes), sep) == Hex(bytes[0]) + Tail(bytes[1..], sep)
  {
    assert Tokens(bytes)[1..] == Tokens(bytes[1..]);
  }

  lemma MacCons(bytes: seq<byte>, sep: char)
    requires bytes != []
    ensures MacText(bytes, sep) == Pad(Hex(bytes[0]), 2, '0') + Tail(bytes[1..], sep)
  {
    var tokens := [Pad(Hex(bytes[0]), 2, '0')] + Tokens(bytes[1..]);
    assert tokens[1..] == Tokens(bytes[1..]);
  }

  lemma HexShape(b: byte)
    ensures b < 16 ==> Hex(b) == [Digit(b, true)]
    ensures b >= 16 ==> Hex(b) == [Digit(b / 16, true), Digit(b % 16, true)]
    ensures Hex(b)[0] == '0' <==> b == 0
  {
    NumeralReads(b, 16, true);
  }

  /** With '0' as separator, no list of bytes prints as '0' followed by the text of another list. */
  lemma {:induction false} NoExtraZero(b: seq<byte>, c: seq<byte>)
    requires b != [] && c != []
    ensures Join(Tokens(b), '0') != "0" + Join(Tokens(c), '0')
    decreases |b| + |c|
  {
    JoinCons(b, '0');
    JoinCons(c, '0');
    HexShape(b[0]);
    HexShape(c[0]);
    if Join(Tokens(b), '0') == "0" + Join(Tokens(c), '0') {
      assert Join(Tokens(b), '0')[0] == '0';
      assert Join(Tokens(b), '0')[1..] == Tail(b[1..], '0');
      assert ("0" + Join(Tokens(c), '0'))[1..] == Join(Tokens(c), '0');
      if |b| > 1 {
        NoExtraZero(c, b[1..]);
      }
    }
  }

  lemma {:induction false} ZeroTailUnique(b: seq<byte>, c: seq<byte>)
    requires Tail(b, '0') == Tail(c, '0')
    ensures b == c
    decreases |b| + |c|, 1
  {
    if b != [] && c != [] {
      assert Tail(b, '0')[1..] == Join(Tokens(b), '0');
      assert Tail(c, '0')[1..] == Join(Tokens(c), '0');
      ZeroJoinUnique(b, c);
    }
  }

  lemma {:induction false} ZeroJoinUnique(b: seq<byte>, c: seq<byte>)
    requires b != [] && c != [] && Join(Tokens(b), '0') == Join(Tokens(c), '0')
    ensures b == c
    decreases |b| + |c|, 0
  {
    var s := Join(Tokens(b), '0');
    JoinCons(b, '0');
    JoinCons(c, '0');
    HexReads(b[0]);
    HexReads(c[0]);
    if |Hex(b[0])| == |Hex(c[0])| {
      assert s[..|Hex(b[0])|] == Hex(b[0]) == Hex(c[0]);
      assert s[|Hex(b[0])|..] == Tail(b[1..], '0') == Tail(c[1..], '0');
      ZeroTailUnique(b[1..], c[1..]);
      assert b == [b[0]] + b[1..] && c == [c[0]] + c[1..];
    } else if |Hex(b[0])| < |Hex(c[0])| {
      Overlap(b, c);
    } else {
      Overlap(c, b);
    }
  }

  lemma ShiftOne(x: string, y: string, u: string, v: string)
    requires |x| == 1 && |y| == 2 && x + u == y + v
    ensures u != "" && u[1..] == v
  {
    assert u == (x + u)[1..];
    assert v == (y + v)[2..];
  }

  lemma Overlap(b: seq<byte>, c: seq<byte>)
    requires b != [] && c != [] && |Hex(b[0])| == 1 && |Hex(c[0])| == 2
    ensures Join(Tokens(b), '0') != Join(Tokens(c), '0')
  {
    hide Hex, Tokens, Join;
    JoinCons(b, '0');
    JoinCons(c, '0');
    if Join(Tokens(b), '0') == Join(Tokens(c), '0') {
      var b', c' := b[1..], c[1..];
      ShiftOne(Hex(b[0]), Hex(c[0]), Tail(b', '0'), Tail(c', '0'));
      assert Tail(b', '0')[1..] == Join(Tokens(b'), '0');
      if c' != [] {
        NoExtraZero(b', c');
      } else {
        JoinCons(b', '0');
        HexReads(b'[0]);
      }
    }
  }

  lemma ZeroSeparator(b: seq<byte>, c: seq<byte>)
    requires b != [] && c != [] && MacText(b, '0') == MacText(c, '0')
    ensures b == c
  {
    MacCons(b, '0');
    MacCons(c, '0');
    HexReads(b[0]);
    HexReads(c[0]);
    var s := MacText(b, '0');
    assert s[..2] == Pad(Hex(b[0]), 2, '0') == Pad(Hex(c[0]), 2, '0');
    assert s[2..] == Tail(b[1..], '0') == Tail(c[1..], '0');
    ZeroTailUnique(b[1..], c[1..]);
    assert b == [b[0]] + b[1..] && c == [c[0]] + c[1..];
  }

  lemma TwoTokens(x: byte, y: byte, rest: seq<byte>, sep: char)
    ensures Tail([x, y] + rest, sep) == ([sep] + Hex(x)) + (([sep] + Hex(y)) + Tail(rest, sep))
  {
    hide Hex, Tokens, Join;
    var b: seq<byte>, c: seq<byte> := [x, y] + rest, [y] + rest;
    JoinCons(b, sep);
    JoinCons(c, sep);
    assert b[1..] == c && c[1..] == rest;
    assert Tail(c, sep) == ([sep] + Hex(y)) + Tail(rest, sep);
    assert Tail(b, sep) == ([sep] + Hex(x)) + Tail(c, sep);
  }

  lemma Commute(u: string, v: string, rest: string)
    requires u + v == v + u
    ensures u + (v + rest) == v + (u + rest)
  {
    assert u + (v + rest) == (u + v) + rest;
    assert v + (u + rest) == (v + u) + rest;
  }

  lemma DigitsCommute(d: byte)
    requires 1 <= d < 16
    ensures var s: string := [Digit(d, true)];
      (s + Hex(d)) + (s + Hex(17 * d)) == (s + Hex(17 * d)) + (s + Hex(d))
  {
    var s: string := [Digit(d, true)];
    HexShape(d);
    HexShape(17 * d);
    assert 17 * d / 16 == d && 17 * d % 16 == d;
    assert Hex(d) == s && Hex(17 * d) == s + s;
    hide *;
    FiveDigits(s);
  }

  lemma FiveDigits(s: string)
    ensures (s + s) + (s + (s + s)) == (s + (s + s)) + (s + s)
  {
    assert s + (s + s) == (s + s) + s;
  }

  /** For every other digit d there is a collision: d, dd and dd, d are both printed as dddd. */
  lemma DigitCollides(d: byte, first: byte, rest: seq<byte>)
    requires 1 <= d < 16
    ensures MacText([first, d, 17 * d] + rest, Digit(d, true)) == MacText([first, 17 * d, d] + rest, Digit(d, true))
  {
    hide *;
    var sep := Digit(d, true);
    DigitsCommute(d);
    TwoTokens(d, 17 * d, rest, sep);
    TwoTokens(17 * d, d, rest, sep);
    Commute([sep] + Hex(d), [sep] + Hex(17 * d), Tail(rest, sep));
    MacCons([first, d, 17 * d] + rest, sep);
    MacCons([first, 17 * d, d] + rest, sep);
    assert ([first, d, 17 * d] + rest)[1..] == [d, 17 * d] + rest;
    assert ([first, 17 * d, d] + rest)[1..] == [17 * d, d] + rest;
  }

  ghost predicate Unambiguous(n: nat, sep: char)
    requires n > 0
  {
    forall b: seq<byte>, c: seq<byte> :: |b| == n && |c| == n && MacText(b, sep) == MacText(c, sep) ==> b == c
  }

  /** The text of three or more bytes determines the bytes exactly for the separators that are not one of
      1-9 and A-F. */
  lemma SeparatorExactly(n: nat, sep: char)
    requires n >= 3
    ensures Unambiguous(n, sep) <==> !(HexDigit(sep) && sep != '0')
  {
    if HexDigit(sep) && sep != '0' {
      var d: byte := DigitValue(sep);
      var rest: seq<byte> := seq(n - 3, _ => 0);
      DigitCollides(d, 0, rest);
      var b, c: seq<byte> := [0, d, 17 * d] + rest, [0, 17 * d, d] + rest;
      assert b[1] != c[1];
      assert Digit(d, true) == sep;
    } else {
      forall b: seq<byte>, c: seq<byte> | |b| == n && |c| == n && MacText(b, sep) == MacText(c, sep) ensures b == c {
        if sep == '0' {
          ZeroSeparator(b, c);
        } else {
          MacReadsBack(b, sep);
          MacReadsBack(c, sep);
        }
      }
    }
  }

  // ---- resolveHostname

  /** A byte of the address as `static_cast<int>(char)`. */
  function Octet(b: byte, signed: bool): int { if signed && b >= 128 then b - 256 else b }

  function Octets(q: Quad, signed: bool): seq<int> {
    [Octet(q.a, signed), Octet(q.b, signed), Octet(q.c, signed), Octet(q.d, signed)]
  }

  function QuadText(q: Quad, signed: bool): string {
    Join([IntText(Octet(q.a, signed), 10, false), IntText(Octet(q.b, signed), 10, false),
          IntText(Octet(q.c, signed), 10, false), IntText(Octet(q.d, signed), 10, false)], '.')
  }

  /** inet_ntoa: the usual form. */
  function InetNtoa(q: Quad): string { QuadText(q, false) }

  method ResolvedText(address: array<byte>, signed: bool) returns (s: string)
    requires address.Length == 4
    ensures s == QuadText(Quad(address[0], address[1], address[2], address[3]), signed)
  {
    var ss := new OStringStream();
    ghost var texts: seq<string> := [];
    for i := 0 to 4
      invariant ss.width == 0 && ss.base == 10 && !ss.upper && ss.text == Join(texts, '.')
      invariant |texts| == i
      invariant forall j :: 0 <= j < i ==> texts[j] == IntText(Octet(address[j], signed), 10, false)
    {
      if i != 0 {
        ss.PutChar('.');
      }
      ss.PutInt(Octet(address[i], signed));
      JoinSnoc(texts, IntText(Octet(address[i], signed), 10, false), '.');
      texts := texts + [IntText(Octet(address[i], signed), 10, false)];
    }
    s := ss.text;
    assert texts == [texts[0], texts[1], texts[2], texts[3]];
  }

  lemma {:induction false} JoinSnoc(ts: seq<string>, t: string, sep: char)
    ensures Join(ts + [t], sep) == if ts == [] then t else Join(ts, sep) + [sep] + t
  {
    if |ts| > 1 {
      JoinSnoc(ts[1..], t, sep);
      assert (ts + [t])[1..] == ts[1..] + [t];
    } else if |ts| == 1 {
      assert (ts + [t])[1..] == [t];
    }
  }

  function ReadQuad(s: string): seq<int> {
    var tokens := Split(s, '.');
    seq(|tokens|, i requires 0 <= i < |tokens| => IntValue(tokens[i]))
  }

  /** Reading the decimal numbers back gives the numbers that were printed. */
  lemma QuadReadsBack(q: Quad, signed: bool)
    ensures ReadQuad(QuadText(q, signed)) == Octets(q, signed)
  {
    var o := Octets(q, signed);
    var tokens := [IntText(o[0], 10, false), IntText(o[1], 10, false),
                   IntText(o[2], 10, false), IntText(o[3], 10, false)];
    forall i | 0 <= i < 4 ensures '.' !in tokens[i] && IntValue(tokens[i]) == o[i] {
      IntTextReads(o[i]);
    }
    SplitJoin(tokens, '.');
  }

  /** Each of the four numbers is printed without leading zeros. */
  lemma QuadShortest(q: Quad, signed: bool)
    ensures var tokens := Split(QuadText(q, signed), '.');
      |tokens| == 4 && forall i :: 0 <= i < 4 ==> Shortest(tokens[i])
  {
    var o := Octets(q, signed);
    var tokens := [IntText(o[0], 10, false), IntText(o[1], 10, false),
                   IntText(o[2], 10, false), IntText(o[3], 10, false)];
    forall i | 0 <= i < 4 ensures '.' !in tokens[i] && Shortest(tokens[i]) {
      IntTextReads(o[i]);
    }
    SplitJoin(tokens, '.');
  }

  /** Different addresses are printed differently, with signed and with unsigned characters. */
  lemma QuadInjective(q: Quad, q': Quad, signed: bool)
    requires QuadText(q, signed) == QuadText(q', signed)
    ensures q == q'
  {
    QuadReadsBack(q, signed);
    QuadReadsBack(q', signed);
    var o, o' := Octets(q, signed), Octets(q', signed);
    assert o[0] == o'[0] && o[1] == o'[1] && o[2] == o'[2] && o[3] == o'[3];
  }

  /** The text is the usual form exactly when characters are unsigned or no octet is above 127. */
  lemma QuadStandardExactly(q: Quad, signed: bool)
    ensures QuadText(q, signed) == InetNtoa(q) <==> !signed || (q.a < 128 && q.b < 128 && q.c < 128 && q.d < 128)
  {
    QuadReadsBack(q, signed);
    QuadReadsBack(q, false);
    var o, o' := Octets(q, signed), Octets(q, false);
    if o == o' {
      assert o[0] == o'[0] && o[1] == o'[1] && o[2] == o'[2] && o[3] == o'[3];
    }
  }
}
