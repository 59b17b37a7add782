/** Text: C strings, splitting at a separator, and numerals. */
module Text {

  /** The part before the first `stop`: with a NUL, the text that a C function sees. */
  function UpTo<T(==)>(s: seq<T>, stop: T): seq<T> {
    if s == [] || s[0] == stop then [] else [s[0]] + UpTo(s[1..], stop)
  }

  lemma {:induction false} UpToStops<T>(t: seq<T>, rest: seq<T>, stop: T)
    requires stop !in t
    ensures UpTo(t + [stop] + rest, stop) == t
  {
    if t == [] {
      assert (t + [stop] + rest)[0] == stop;
    } else {
      UpToStops(t[1..], rest, stop);
      assert (t + [stop] + rest)[1..] == t[1..] + [stop] + rest;
      assert t == [t[0]] + t[1..];
    }
  }

  lemma {:induction false} UpToCut<T>(t: seq<T>, rest: seq<T>, stop: T)
    ensures UpTo(t + [stop] + rest, stop) == UpTo(t, stop)
  {
    var s := t + [stop] + rest;
    if t == [] {
      assert s[0] == stop;
    } else if t[0] != stop {
      UpToCut(t[1..], rest, stop);
      assert s[1..] == t[1..] + [stop] + rest;
    }
  }

  lemma {:induction false} UpToPrefix<T>(s: seq<T>, stop: T)
    ensures UpTo(s, stop) <= s && stop !in UpTo(s, stop)
    ensures UpTo(s, stop) == s <==> stop !in s
    ensures stop in s <==> |UpTo(s, stop)| < |s|
    ensures stop in s ==> s[|UpTo(s, stop)|] == stop
  {
    if s != [] && s[0] != stop {
      UpToPrefix(s[1..], stop);
      assert s == [s[0]] + s[1..];
    }
  }

  function Join(tokens: seq<string>, sep: char): string {
    if tokens == [] then ""
    else if |tokens| == 1 then tokens[0]
    else tokens[0] + [sep] + Join(tokens[1..], sep)
  }

  function Split(s: string, sep: char): seq<string>
    decreases |s|
  {
    var t := UpTo(s, sep);
    if |t| < |s| then [t] + Split(s[|t| + 1..], sep) else [t]
  }

  lemma {:induction false} SplitJoin(tokens: seq<string>, sep: char)
    requires tokens != [] && forall i :: 0 <= i < |tokens| ==> sep !in tokens[i]
    ensures Split(Join(tokens, sep), sep) == tokens
  {
    var s := Join(tokens, sep);
    if |tokens| == 1 {
      UpToPrefix(s, sep);
    } else {
      var rest := Join(tokens[1..], sep);
      UpToStops(tokens[0], rest, sep);
      assert s[|tokens[0]| + 1..] == rest;
      SplitJoin(tokens[1..], sep);
      assert tokens == [tokens[0]] + tokens[1..];
    }
  }

  function Digit(d: nat, upper: bool): char
    requires d < 16
  {
    if upper then "0123456789ABCDEF"[d] else "0123456789abcdef"[d]
  }

  function Numeral(n: nat, base: nat, upper: bool): string
    requires base == 10 || base == 16
  {
    if n < base then [Digit(n, upper)] else Numeral(n / base, base, upper) + [Digit(n % base, upper)]
  }

  function DigitValue(c: char): nat {
    if '0' <= c <= '9' then c as nat - '0' as nat
    else if 'A' <= c <= 'F' then c as nat - 'A' as nat + 10
    else 0
  }

  function Value(s: string, base: nat): nat {
    if s == [] then 0 else Value(s[..|s| - 1], base) * base + DigitValue(s[|s| - 1])
  }

  predicate IsDigit(c: char, base: nat) {
    '0' <= c <= '9' || (base > 10 && 'A' <= c <= 'F')
  }

  lemma DigitReads(d: nat, base: nat, upper: bool)
    requires d < base <= 16 && (upper || base <= 10)
    ensures var c := Digit(d, upper);
      DigitValue(c) == d && IsDigit(c, base) && (d > 0 ==> c != '0')
  {
  }

  lemma ValueSnoc(s: string, c: char, base: nat)
    ensures Value(s + [c], base) == Value(s, base) * base + DigitValue(c)
  {
    assert (s + [c])[..|s|] == s;
  }

  /** `s` is a way to write `n`. */
  ghost predicate Reads(s: string, n: nat, base: nat) {
    && Value(s, base) == n && s != ""
    && (forall c :: c in s ==> IsDigit(c, base))
    && (n > 0 ==> s[0] != '0')
    && (n == 0 ==> s == "0")
  }

  lemma ReadsSnoc(s: string, n: nat, d: nat, base: nat, upper: bool)
    requires Reads(s, n, base) && n > 0 && d < base <= 16 && (upper || base <= 10)
    ensures Reads(s + [Digit(d, upper)], n * base + d, base)
  {
    DigitReads(d, base, upper);
    ValueSnoc(s, Digit(d, upper), base);
    assert (s + [Digit(d, upper)])[0] == s[0];
  }

  lemma {:induction false} NumeralReads(n: nat, base: nat, upper: bool)
    requires base == 10 || (base == 16 && upper)
    ensures Reads(Numeral(n, base, upper), n, base)
  {
    hide Reads;
    if n < base {
      OneDigitReads(n, base, upper);
    } else if base == 10 {
      NumeralReads(n / 10, 10, upper);
      ReadsSnoc(Numeral(n / 10, 10, upper), n / 10, n % 10, 10, upper);
    } else {
      NumeralReads(n / 16, 16, upper);
      ReadsSnoc(Numeral(n / 16, 16, upper), n / 16, n % 16, 16, upper);
    }
  }

  lemma OneDigitReads(n: nat, base: nat, upper: bool)
    requires n < base <= 16 && (upper || base <= 10)
    ensures Reads([Digit(n, upper)], n, base)
  {
    DigitReads(n, base, upper);
    ValueSnoc("", Digit(n, upper), base);
    assert "" + [Digit(n, upper)] == [Digit(n, upper)];
  }

  /** printf-like text of an int: base 10, or the unsigned 32-bit pattern in base 16. */
  function IntText(n: int, base: nat, upper: bool): string
    requires (base == 10 || base == 16) && n >= -0x8000_0000
  {
    if n >= 0 then Numeral(n, base, upper)
    else if base == 10 then "-" + Numeral(-n, base, upper)
    else Numeral(n + 0x1_0000_0000, base, upper)
  }

  function IntValue(s: string): int {
    if s != "" && s[0] == '-' then 0 - Value(s[1..], 10) as int else Value(s, 10)
  }

  /** A numeral without a leading zero, with or without a sign. */
  predicate Shortest(s: string) {
    s == "0" || (s != "" && '1' <= s[0] <= '9') || (|s| > 1 && s[0] == '-' && '1' <= s[1] <= '9')
  }

  lemma IntTextReads(n: int)
    requires n >= -0x8000_0000
    ensures Shortest(IntText(n, 10, false))
    ensures IntValue(IntText(n, 10, false)) == n
    ensures forall c :: c in IntText(n, 10, false) ==> c == '-' || '0' <= c <= '9'
  {
    NumeralReads(if n < 0 then -n else n, 10, false);
    var s := IntText(n, 10, false);
    if n < 0 {
      assert s[1..] == Numeral(-n, 10, false);
      assert s[1] == s[1..][0] && s[1] in s[1..];
    } else {
      assert s[0] in s;
    }
  }

  function Fill(c: char, n: nat): string { seq(n, _ => c) }

  function Pad(s: string, width: nat, fill: char): string {
    if |s| < width then Fill(fill, width - |s|) + s else s
  }

  /** std::ostringstream: the width holds for one insertion, everything else until it is changed. */
  class OStringStream {
    var text: string
    var width: nat
    var fill: char
    var base: nat
    var upper: bool

    constructor ()
      ensures text == "" && width == 0 && fill == ' ' && base == 10 && !upper
    {
      text, width, fill, base, upper := "", 0, ' ', 10, false;
    }

    method PutInt(n: int)
      requires n >= -0x8000_0000 && (base == 10 || base == 16)
      modifies this`text, this`width
      ensures text == old(text) + Pad(IntText(n, base, upper), old(width), fill) && width == 0
    {
      text, width := text + Pad(IntText(n, base, upper), width, fill), 0;
    }

    method PutChar(c: char)
      modifies this`text, this`width
      ensures text == old(text) + Pad([c], old(width), fill) && width == 0
    {
      text, width := text + Pad([c], width, fill), 0;
    }
  }
}
