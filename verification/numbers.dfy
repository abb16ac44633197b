/** Fixed-width integers and the digit-level readers and writers the
    coercions rely on: std::stoll in bases 10 and 16, hyprutils isNumber,
    std::to_string. */
module Numbers {
  import opened Results
  import opened Text

  const INT64_MIN: int := -0x8000_0000_0000_0000
  const INT64_MAX: int := 0x7FFF_FFFF_FFFF_FFFF
  const TWO_64: int := 0x1_0000_0000_0000_0000

  /** Hyprlang::INT (int64_t). */
  type Int64 = x: int | INT64_MIN <= x <= INT64_MAX

  /** Two's-complement reduction of an exact integer into the int64 range. */
  function Wrap64(x: int): (r: Int64)
    ensures INT64_MIN <= x <= INT64_MAX ==> r == x
  {
    (x - INT64_MIN) % TWO_64 + INT64_MIN
  }

  /** Wrap64 keeps the value modulo 2^64, as two's-complement arithmetic does. */
  lemma Wrap64Congruent(x: int)
    ensures (Wrap64(x) - x) % TWO_64 == 0
  {
  }

  predicate IsDigit(c: char) {
    '0' <= c <= '9'
  }

  predicate IsHexDigit(c: char) {
    IsDigit(c) || 'a' <= c <= 'f' || 'A' <= c <= 'F'
  }

  function DigitValue(c: char): (v: nat)
    requires IsDigit(c)
    ensures v < 10
  {
    c as int - '0' as int
  }

  function HexDigitValue(c: char): (v: nat)
    requires IsHexDigit(c)
    ensures v < 16
  {
    if IsDigit(c) then DigitValue(c)
    else if 'a' <= c <= 'f' then c as int - 'a' as int + 10
    else c as int - 'A' as int + 10
  }

  predicate AllDigits(s: string) {
    forall i :: 0 <= i < |s| ==> IsDigit(s[i])
  }

  predicate AllHex(s: string) {
    forall i :: 0 <= i < |s| ==> IsHexDigit(s[i])
  }

  /** The number a string of decimal digits denotes (most significant first). */
  function DecValue(s: string): nat
    requires AllDigits(s)
  {
    if |s| == 0 then 0 else DecValue(s[..|s| - 1]) * 10 + DigitValue(s[|s| - 1])
  }

  /** The number a string of hexadecimal digits denotes (most significant first). */
  function HexValue(s: string): nat
    requires AllHex(s)
  {
    if |s| == 0 then 0 else HexValue(s[..|s| - 1]) * 16 + HexDigitValue(s[|s| - 1])
  }

  function Pow16(e: nat): (r: nat)
    ensures r > 0
  {
    if e == 0 then 1 else 16 * Pow16(e - 1)
  }

  lemma {:induction false} HexValueBound(s: string)
    requires AllHex(s)
    ensures HexValue(s) < Pow16(|s|)
    decreases |s|
  {
    if |s| > 0 {
      HexValueBound(s[..|s| - 1]);
    }
  }

  function DigitChar(d: nat): (c: char)
    requires d < 10
    ensures IsDigit(c) && DigitValue(c) == d
  {
    ('0' as int + d) as char
  }

  function HexChar(d: nat): (c: char)
    requires d < 16
    ensures IsHexDigit(c) && HexDigitValue(c) == d
  {
    if d < 10 then DigitChar(d) else ('a' as int + d - 10) as char
  }

  /** std::to_string of a non-negative number. */
  function NatToString(n: nat): (s: string)
    ensures |s| > 0 && AllDigits(s)
  {
    if n < 10 then [DigitChar(n)] else NatToString(n / 10) + [DigitChar(n % 10)]
  }

  /** Lower-case hexadecimal digits of a non-negative number. */
  function HexString(n: nat): (s: string)
    ensures |s| > 0 && AllHex(s)
  {
    if n < 16 then [HexChar(n)] else HexString(n / 16) + [HexChar(n % 16)]
  }

  /** Reading back what NatToString wrote gives the number. */
  lemma {:induction false} DecValueOfNatToString(n: nat)
    ensures DecValue(NatToString(n)) == n
  {
    if n >= 10 {
      var s := NatToString(n);
      assert s[..|s| - 1] == NatToString(n / 10);
      DecValueOfNatToString(n / 10);
    }
  }

  /** Reading back what HexString wrote gives the number. */
  lemma {:induction false} HexValueOfHexString(n: nat)
    ensures HexValue(HexString(n)) == n
  {
    if n >= 16 {
      var s := HexString(n);
      assert s[..|s| - 1] == HexString(n / 16);
      HexValueOfHexString(n / 16);
    }
  }

  /** Distinct numbers have distinct decimal spellings. */
  lemma NatToStringInjective(a: nat, b: nat)
    requires NatToString(a) == NatToString(b)
    ensures a == b
  {
    DecValueOfNatToString(a);
    DecValueOfNatToString(b);
  }

  /** The digits strtoll reads in base 16 once the sign is gone: a 0x/0X
      prefix is skipped only when a hex digit follows it. */
  function HexDigitsOf(u: string): string {
    if |u| > 2 && u[0] == '0' && (u[1] == 'x' || u[1] == 'X') && IsHexDigit(u[2]) then u[2..] else u
  }

  function SignedHex(neg: bool, digits: string): Option<Int64> {
    if |digits| == 0 || !AllHex(digits) then None
    else
      var v := if neg then -(HexValue(digits) as int) else HexValue(digits);
      if INT64_MIN <= v <= INT64_MAX then Some(v) else None
  }

  /** std::stoll(s, &pos, 16) with the requirement that pos reaches the end of s:
      optional leading whitespace, an optional sign, an optional 0x/0X prefix,
      then hex digits only; a value outside int64 raises. */
  function StollHexFull(s: string): Option<Int64> {
    var t := TrimStart(s);
    if |t| > 0 && (t[0] == '+' || t[0] == '-') then SignedHex(t[0] == '-', HexDigitsOf(t[1..]))
    else SignedHex(false, HexDigitsOf(t))
  }

  /** hyprutils isNumber(s, false): an optional leading '-', then decimal digits,
      the last character being a digit. */
  predicate IsNumber(s: string) {
    && |s| > 0
    && IsDigit(s[|s| - 1])
    && forall i :: 0 <= i < |s| ==> IsDigit(s[i]) || (i == 0 && s[i] == '-')
  }

  /** std::stoll(s) on text isNumber accepted; None when out of the int64 range. */
  function StollDec(s: string): (r: Option<Int64>)
    requires IsNumber(s)
    ensures s[0] != '-' ==> (r.Some? <==> DecValue(s) <= INT64_MAX)
    ensures s[0] != '-' && DecValue(s) <= INT64_MAX ==> r == Some(DecValue(s))
    ensures s[0] == '-' ==> (r.Some? <==> DecValue(s[1..]) <= -INT64_MIN)
    ensures s[0] == '-' && DecValue(s[1..]) <= -INT64_MIN ==> r.Some? && r.value == -(DecValue(s[1..]) as int)
  {
    var neg := s[0] == '-';
    var digits := if neg then s[1..] else s;
    assert AllDigits(digits);
    var v := if neg then -(DecValue(digits) as int) else DecValue(digits);
    if INT64_MIN <= v <= INT64_MAX then Some(v) else None
  }

  /** Plain hex digits are read as a base-16 number, with no byte reordering. */
  lemma StollHexOfPrefixed(h: string)
    requires |h| > 0 && AllHex(h) && HexValue(h) <= INT64_MAX
    ensures StollHexFull("0x" + h) == Some(HexValue(h))
  {
    var s := "0x" + h;
    assert !IsSpace(s[0]);
    assert TrimStart(s) == s;
    assert s[2..] == h;
    assert s[2] == h[0];
    assert HexDigitsOf(s) == h;
    assert SignedHex(false, h) == Some(HexValue(h));
  }

  /** Bare hex digits are read the same way; a value beyond int64 raises. */
  lemma StollHexOfDigits(h: string)
    requires |h| > 0 && AllHex(h)
    ensures StollHexFull(h) == if HexValue(h) <= INT64_MAX then Some(HexValue(h)) else None
  {
    assert IsHexDigit(h[0]) && !IsSpace(h[0]);
    assert TrimStart(h) == h;
    assert h[0] != '+' && h[0] != '-';
    if |h| > 2 {
      assert IsHexDigit(h[1]);
      assert h[1] != 'x' && h[1] != 'X';
    }
    assert HexDigitsOf(h) == h;
  }

  /** The characters base-16 strtoll can consume: hex digits, leading
      whitespace, a sign and the x of a 0x prefix. */
  predicate HexSyntax(c: char) {
    IsHexDigit(c) || IsSpace(c) || c == '+' || c == '-' || c == 'x' || c == 'X'
  }

  /** Text after the sign whose digits are all hex is made of hex syntax. */
  lemma HexDigitsSyntax(u: string)
    requires AllHex(HexDigitsOf(u))
    ensures forall i :: 0 <= i < |u| ==> HexSyntax(u[i])
  {
    if |u| > 2 && u[0] == '0' && (u[1] == 'x' || u[1] == 'X') && IsHexDigit(u[2]) {
      forall i | 2 <= i < |u| ensures HexSyntax(u[i]) {
        assert u[i] == u[2..][i - 2];
      }
    }
  }

  /** A text strtoll reads whole in base 16 holds nothing but hex syntax. */
  lemma StollHexFullSyntax(s: string)
    requires StollHexFull(s).Some?
    ensures forall i :: 0 <= i < |s| ==> HexSyntax(s[i])
  {
    var t := TrimStart(s);
    var k := |s| - |t|;
    TrimStartRemovesSpaces(s);
    if |t| > 0 && (t[0] == '+' || t[0] == '-') {
      HexDigitsSyntax(t[1..]);
      forall j | 1 <= j < |t| ensures HexSyntax(t[j]) {
        assert t[j] == t[1..][j - 1];
      }
    } else {
      HexDigitsSyntax(t);
    }
    forall i | k <= i < |s| ensures HexSyntax(s[i]) {
      assert s[i] == t[i - k];
    }
  }
}
