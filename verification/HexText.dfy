/** Hexadecimal numbers and comma-separated fields as text, written and read back. */
module HexText {

  datatype Option<T> = None | Some(value: T)

  // --- digits -------------------------------------------------------------------------

  function Digit(d: nat): char
    requires d < 16
  {
    "0123456789abcdef"[d]
  }

  function Value(c: char): (v: int)
    ensures -1 <= v < 16
  {
    if '0' <= c <= '9' then (c - '0') as int
    else if 'a' <= c <= 'f' then (c - 'a') as int + 10
    else if 'A' <= c <= 'F' then (c - 'A') as int + 10
    else -1
  }

  lemma DigitValue(d: nat)
    requires d < 16
    ensures Value(Digit(d)) == d
  {
  }

  predicate IsHex(s: string) {
    forall i :: 0 <= i < |s| ==> Value(s[i]) >= 0
  }

  /** The value of a hexadecimal number; nothing if it is empty or has another character in it. */
  function Parsed(s: string): Option<nat> {
    if s != [] && IsHex(s) then Some(Number(s)) else None
  }

  function Number(s: string): nat
    requires IsHex(s)
  {
    if s == [] then 0 else 16 * Number(s[..|s| - 1]) + Value(s[|s| - 1])
  }

  /** `n` without leading zeros. */
  function Hex(n: nat): (s: string)
    ensures s != []
  {
    if n < 16 then [Digit(n)] else Hex(n / 16) + [Digit(n % 16)]
  }

  // --- decimal numbers ------------------------------------------------------------------

  predicate IsDecimal(s: string) {
    s != [] && forall i :: 0 <= i < |s| ==> '0' <= s[i] <= '9'
  }

  function DecimalNumber(s: string): nat
    requires forall i :: 0 <= i < |s| ==> '0' <= s[i] <= '9'
  {
    if s == [] then 0 else 10 * DecimalNumber(s[..|s| - 1]) + (s[|s| - 1] - '0') as int
  }

  /** A decimal number with or without a sign, among spaces; nothing if it is anything else. */
  function Integer(text: string): Option<int> {
    var s := Strip(text);
    if IsDecimal(s) then Some(DecimalNumber(s))
    else if s != [] && s[0] in {'+', '-'} && IsDecimal(s[1..]) then
      Some(if s[0] == '-' then 0 - DecimalNumber(s[1..]) else DecimalNumber(s[1..]))
    else None
  }

  function Decimal(n: nat): (s: string)
    ensures s != []
  {
    if n < 10 then [Digit(n)] else Decimal(n / 10) + [Digit(n % 10)]
  }

  lemma DecimalDigit(d: nat)
    requires d < 10
    ensures '0' <= Digit(d) <= '9' && (Digit(d) - '0') as int == d
  {
  }

  lemma {:induction false} DecimalRoundTrip(n: nat)
    ensures IsDecimal(Decimal(n)) && DecimalNumber(Decimal(n)) == n
    ensures Decimal(n)[0] == '0' ==> n == 0
  {
    var s := Decimal(n);
    if n < 10 {
      DecimalDigit(n);
      assert s[..0] == [];
    } else {
      DecimalRoundTrip(n / 10);
      DecimalDigit(n % 10);
      assert s[..|s| - 1] == Decimal(n / 10);
    }
  }

  lemma IntegerRead(n: nat)
    ensures Integer([' '] + Decimal(n)) == Some(n)
  {
    DecimalRoundTrip(n);
    DigitsStrip(Decimal(n));
  }

  lemma DigitsStrip(s: string)
    requires IsDecimal(s)
    ensures Strip([' '] + s) == s
  {
    assert ([' '] + s)[1..] == s;
    assert LStrip([' '] + s) == LStrip(s) == s;
  }

  /** `s` padded with zeros on the left. */
  function ZFill(s: string, width: nat): (r: string)
    ensures |r| >= |s| && |r| >= width
    decreases width - |s|
  {
    if |s| >= width then s else ZFill("0" + s, width)
  }

  lemma {:induction false} ZFillPads(s: string, width: nat)
    ensures ZFill(s, width) == seq(if |s| < width then width - |s| else 0, _ => '0') + s
    decreases width - |s|
  {
    if |s| < width {
      ZFillPads("0" + s, width);
      var n := width - |s|;
      assert seq(n, _ => '0') == seq(n - 1, _ => '0') + ['0'];
    }
  }

  lemma {:induction false} HexNumber(n: nat)
    ensures IsHex(Hex(n)) && Number(Hex(n)) == n
    ensures Hex(n)[0] == '0' ==> n == 0
  {
    if n < 16 {
      DigitValue(n);
      assert [Digit(n)][..0] == [];
    } else {
      HexNumber(n / 16);
      DigitValue(n % 16);
      assert Hex(n)[..|Hex(n)| - 1] == Hex(n / 16);
    }
  }

  lemma {:induction false} LeadingZero(s: string)
    requires IsHex(s)
    ensures IsHex("0" + s) && Number("0" + s) == Number(s)
  {
    assert Value('0') == 0;
    assert forall i :: 0 < i < |"0" + s| ==> ("0" + s)[i] == s[i - 1];
    if s == [] {
      assert "0" + s == "0" && "0"[..0] == [];
    } else {
      var n := |s| - 1;
      LeadingZero(s[..n]);
      assert ("0" + s)[..n + 1] == "0" + s[..n];
    }
  }

  lemma {:induction false} ZFillNumber(s: string, width: nat)
    requires IsHex(s)
    ensures IsHex(ZFill(s, width)) && Number(ZFill(s, width)) == Number(s)
    decreases width - |s|
  {
    if |s| < width {
      LeadingZero(s);
      ZFillNumber("0" + s, width);
    }
  }

  /** A number written with any padding reads back as itself. */
  lemma HexRoundTrip(n: nat, width: nat)
    ensures Parsed(ZFill(Hex(n), width)) == Some(n)
  {
    HexNumber(n);
    ZFillNumber(Hex(n), width);
  }

  // --- fields ----------------------------------------------------------------------------

  predicate IsSpace(c: char) {
    c in {' ', '\t', '\n', '\r'}
  }

  function LStrip(s: string): string {
    if s != [] && IsSpace(s[0]) then LStrip(s[1..]) else s
  }

  function RStrip(s: string): string {
    if s != [] && IsSpace(s[|s| - 1]) then RStrip(s[..|s| - 1]) else s
  }

  function Strip(s: string): string {
    RStrip(LStrip(s))
  }

  /** The parts of `s` between occurrences of `c`. */
  function Split(s: string, c: char): (parts: seq<string>)
    ensures parts != []
  {
    if s == [] then [[]]
    else
      var rest := Split(s[1..], c);
      if s[0] == c then [[]] + rest else [[s[0]] + rest[0]] + rest[1..]
  }

  /** `s` up to the first occurrence of `c`. */
  function Before(s: string, c: char): string {
    if s == [] || s[0] == c then [] else [s[0]] + Before(s[1..], c)
  }

  lemma {:induction false} SplitWithout(a: string, c: char)
    requires c !in a
    ensures Split(a, c) == [a]
  {
    if a != [] {
      SplitWithout(a[1..], c);
      assert a == [a[0]] + a[1..];
    }
  }

  lemma {:induction false} SplitAt(a: string, c: char, b: string)
    requires c !in a
    ensures Split(a + [c] + b, c) == [a] + Split(b, c)
  {
    var s := a + [c] + b;
    if a == [] {
      assert s[1..] == b;
    } else {
      SplitAt(a[1..], c, b);
      assert s[1..] == a[1..] + [c] + b && s[0] == a[0];
      assert a == [a[0]] + a[1..];
    }
  }

  lemma {:induction false} BeforeWithout(a: string, c: char)
    requires c !in a
    ensures Before(a, c) == a
  {
    if a != [] {
      BeforeWithout(a[1..], c);
      assert a == [a[0]] + a[1..];
    }
  }

  lemma HexIsPlain(s: string)
    requires IsHex(s)
    ensures ',' !in s && '#' !in s && ' ' !in s && (s != [] ==> Strip(s) == s && Strip(" " + s) == s)
  {
    forall c | c in s ensures c != ',' && c != '#' && !IsSpace(c) {
      assert Value(c) >= 0;
    }
    if s != [] {
      assert (" " + s)[1..] == s;
      assert LStrip(" " + s) == LStrip(s) == s;
    }
  }
}
