/** configStringToInt: how the text of an INT option becomes an int64. */
module Coerce {
  import opened Results
  import opened Text
  import opened Numbers
  import opened Foreign

  /** The parseHex helper: strtoll in base 16 must consume the whole text. */
  function ParseHex(s: string): (r: Result<Int64>)
    ensures r.Err? ==> r.msg == "invalid hex " + s
    ensures |s| == 0 ==> r.Err?
    ensures r.Ok? ==> forall i :: 0 <= i < |s| ==> HexSyntax(s[i])
    ensures |s| > 0 && AllHex(s) ==> (r.Ok? <==> HexValue(s) <= INT64_MAX)
    ensures |s| > 0 && AllHex(s) && HexValue(s) <= INT64_MAX ==> r == Ok(HexValue(s))
  {
    StollHexFacts(s);
    match StollHexFull(s)
    case Some(v) => Ok(v)
    case None => Err("invalid hex " + s)
  }

  lemma StollHexFacts(s: string)
    ensures StollHexFull(s).Some? ==> forall i :: 0 <= i < |s| ==> HexSyntax(s[i])
    ensures |s| > 0 && AllHex(s) ==>
      StollHexFull(s) == if HexValue(s) <= INT64_MAX then Some(HexValue(s)) else None
  {
    if StollHexFull(s).Some? {
      StollHexFullSyntax(s);
    }
    if |s| > 0 && AllHex(s) {
      StollHexOfDigits(s);
    }
  }

  /** The text between "<fn>(" and the closing ')', trimmed. */
  function Inner(v: string, fn: string): (r: string)
    requires |fn| > 0 && fn[|fn| - 1] == '('
    requires StartsWith(v, fn) && EndsWith(v, ")")
    ensures |r| < |v| - |fn| + 1
  {
    assert v[|fn| - 1] == v[..|fn|][|fn| - 1] == '(';
    assert v[|v| - 1] == v[|v| - 1..][0] == ')';
    Trim(v[|fn|..|v| - 1])
  }

  predicate BoolTrue(v: string) {
    StartsWith(v, "true") || StartsWith(v, "on") || StartsWith(v, "yes")
  }

  predicate BoolFalse(v: string) {
    StartsWith(v, "false") || StartsWith(v, "off") || StartsWith(v, "no")
  }

  /** The forms that are not plain decimal numbers. */
  predicate Special(v: string) {
    || StartsWith(v, "0x")
    || (StartsWith(v, "rgba(") && EndsWith(v, ")"))
    || (StartsWith(v, "rgb(") && EndsWith(v, ")"))
    || BoolTrue(v) || BoolFalse(v)
  }

  /** A conversion that succeeds with the given number. */
  predicate Yields(r: Result<Int64>, v: int) {
    r.Ok? && r.value == v
  }

  const RGBA_SHAPE_ERROR: string := "rgba() expects length of 8 characters (4 bytes) or 4 comma separated values"
  const RGB_SHAPE_ERROR: string := "rgb() expects length of 6 characters (3 bytes) or 3 comma separated values"

  /** ARGB from colour channels. */
  function Argb(a: int, r: int, g: int, b: int): int {
    a * 0x1000000 + r * 0x10000 + g * 0x100 + b
  }

  /** configStringToInt. Recursion is on the length of the text: each channel
      of rgba(r, g, b, a) / rgb(r, g, b) is converted by the same function. */
  function ToInt(v: string, host: Host): (r: Result<Int64>)
    decreases |v|, 0
  {
    if StartsWith(v, "0x") then ParseHex(v)
    else if StartsWith(v, "rgba(") && EndsWith(v, ")") then Rgba(Inner(v, "rgba("), host)
    else if StartsWith(v, "rgb(") && EndsWith(v, ")") then Rgb(Inner(v, "rgb("), host)
    else if BoolTrue(v) then Ok(1)
    else if BoolFalse(v) then Ok(0)
    else if !IsNumber(v) then Err("cannot parse \"" + v + "\" as an int.")
    else match StollDec(v)
      case Some(x) => Ok(x)
      case None => Err("stoll threw: stoll")
  }

  /** The body of rgba(...): four comma-separated channels (alpha a float), or
      eight hex digits RRGGBBAA reordered to ARGB. */
  function Rgba(inner: string, host: Host): (r: Result<Int64>)
    ensures Count(inner, ',') == 3 && r.Err? ==> r.msg == "failed parsing " + inner
    ensures Count(inner, ',') != 3 && |inner| == 8 && r.Err? ==> r.msg == "invalid hex " + inner
    ensures Count(inner, ',') != 3 && |inner| != 8 ==> r == Err(RGBA_SHAPE_ERROR)
    decreases |inner|, 2
  {
    if Count(inner, ',') == 3 then
      SplitOnCount(inner, ',');
      RgbaChannels(SplitOn(inner, ','), inner, host)
    else if |inner| == 8 then
      match ParseHex(inner)
      case Err(e) => Err(e)
      case Ok(x) => Ok(Wrap64(x / 0x100 + 0x1000000 * (x % 0x100)))
    else Err(RGBA_SHAPE_ERROR)
  }

  /** rgba(r, g, b, a) once split at the commas. Every failure, alpha's
      included, reports the whole inner text. */
  function RgbaChannels(f: seq<string>, inner: string, host: Host): (r: Result<Int64>)
    requires |f| == 4 && forall i :: 0 <= i < |f| ==> |f[i]| <= |inner|
    ensures r.Err? <==>
      ToInt(Trim(f[0]), host).Err? || ToInt(Trim(f[1]), host).Err? || ToInt(Trim(f[2]), host).Err? ||
      host.stof(Trim(f[3])).None?
    ensures r.Err? ==> r.msg == "failed parsing " + inner
    decreases |inner|, 1
  {
    var r := ToInt(Trim(f[0]), host);
    var g := ToInt(Trim(f[1]), host);
    var b := ToInt(Trim(f[2]), host);
    var alpha := host.stof(Trim(f[3]));
    if alpha.None? || r.Err? || g.Err? || b.Err? then Err("failed parsing " + inner)
    else Ok(Wrap64(Argb(host.alphaByte(alpha.value), r.value, g.value, b.value)))
  }

  /** The body of rgb(...): three comma-separated channels, or six hex digits;
      alpha is 0xFF. */
  function Rgb(inner: string, host: Host): (r: Result<Int64>)
    ensures Count(inner, ',') == 2 && r.Err? ==> r.msg == "failed parsing " + inner
    ensures Count(inner, ',') != 2 && |inner| == 6 && r.Err? ==> r.msg == "invalid hex " + inner
    ensures Count(inner, ',') != 2 && |inner| != 6 ==> r == Err(RGB_SHAPE_ERROR)
    decreases |inner|, 2
  {
    if Count(inner, ',') == 2 then
      SplitOnCount(inner, ',');
      RgbChannels(SplitOn(inner, ','), inner, host)
    else if |inner| == 6 then
      match ParseHex(inner)
      case Err(e) => Err(e)
      case Ok(x) => Ok(Wrap64(x + 0xFF000000))
    else Err(RGB_SHAPE_ERROR)
  }

  /** rgb(r, g, b) once split at the commas. */
  function RgbChannels(f: seq<string>, inner: string, host: Host): (r: Result<Int64>)
    requires |f| == 3 && forall i :: 0 <= i < |f| ==> |f[i]| <= |inner|
    ensures r.Err? <==> ToInt(Trim(f[0]), host).Err? || ToInt(Trim(f[1]), host).Err? || ToInt(Trim(f[2]), host).Err?
    ensures r.Err? ==> r.msg == "failed parsing " + inner
    decreases |inner|, 1
  {
    var r := ToInt(Trim(f[0]), host);
    var g := ToInt(Trim(f[1]), host);
    var b := ToInt(Trim(f[2]), host);
    if r.Err? || g.Err? || b.Err? then Err("failed parsing " + inner)
    else Ok(Wrap64(Argb(0xFF, r.value, g.value, b.value)))
  }

  /** Two lower-case hex digits for a byte. */
  function Hex2(b: Byte): (s: string)
    ensures |s| == 2 && AllHex(s)
  {
    [HexChar(b / 16), HexChar(b % 16)]
  }

  lemma HexValueAppendPair(x: string, b: Byte)
    requires AllHex(x)
    ensures AllHex(x + Hex2(b))
    ensures HexValue(x + Hex2(b)) == HexValue(x) * 256 + b
  {
    var s := x + Hex2(b);
    assert AllHex(s) by {
      forall i | 0 <= i < |s| ensures IsHexDigit(s[i]) {
        if i >= |x| { assert s[i] == Hex2(b)[i - |x|]; }
      }
    }
    assert s[..|s| - 1] == x + [HexChar(b / 16)];
    assert (x + [HexChar(b / 16)])[..|x|] == x;
  }

  /** The value of the hex spelling of four bytes, most significant first. */
  lemma HexValueOfBytes(p: Byte, q: Byte, u: Byte, w: Byte)
    ensures AllHex(Hex2(p) + Hex2(q) + Hex2(u) + Hex2(w))
    ensures HexValue(Hex2(p) + Hex2(q) + Hex2(u) + Hex2(w)) == ((p * 256 + q) * 256 + u) * 256 + w
  {
    HexValueAppendPair([], p);
    assert [] + Hex2(p) == Hex2(p);
    HexValueAppendPair(Hex2(p), q);
    HexValueAppendPair(Hex2(p) + Hex2(q), u);
    HexValueAppendPair(Hex2(p) + Hex2(q) + Hex2(u), w);
  }

  lemma HexValueOfThreeBytes(p: Byte, q: Byte, u: Byte)
    ensures AllHex(Hex2(p) + Hex2(q) + Hex2(u))
    ensures HexValue(Hex2(p) + Hex2(q) + Hex2(u)) == (p * 256 + q) * 256 + u
  {
    HexValueAppendPair([], p);
    assert [] + Hex2(p) == Hex2(p);
    HexValueAppendPair(Hex2(p), q);
    HexValueAppendPair(Hex2(p) + Hex2(q), u);
  }

  /** The text inside "<fn>(" ... ")" when it is already trimmed. */
  lemma InnerOf(fn: string, t: string)
    requires |fn| > 0 && fn[|fn| - 1] == '('
    requires |t| > 0 && !IsSpace(t[0]) && !IsSpace(t[|t| - 1])
    ensures StartsWith(fn + t + ")", fn) && EndsWith(fn + t + ")", ")")
    ensures Inner(fn + t + ")", fn) == t
  {
    var v := fn + t + ")";
    assert v[..|fn|] == fn;
    assert v[|v| - 1..] == ")";
    assert v[|fn|..|v| - 1] == t;
  }

  /** Decimal digits are not one of the special forms. */
  lemma DigitsNotSpecial(d: string)
    requires |d| > 0 && AllDigits(d)
    ensures !Special(d) && IsNumber(d) && d[0] != '-'
  {
    assert IsDigit(d[0]) && IsDigit(d[|d| - 1]);
    assert !StartsWith(d, "0x") by { if |d| >= 2 { assert d[..2][1] == d[1]; } }
    assert d[..1][0] == d[0];
  }

  /** Decimal digits denoting a number inside int64 are read as that number. */
  lemma ToIntOfDigits(d: string, host: Host)
    requires |d| > 0 && AllDigits(d) && DecValue(d) <= INT64_MAX
    ensures Yields(ToInt(d, host), DecValue(d))
  {
    DigitsNotSpecial(d);
  }

  /** A decimal number inside int64 is read back as itself. */
  lemma ToIntOfDecimal(n: nat, host: Host)
    requires n <= INT64_MAX
    ensures Yields(ToInt(NatToString(n), host), n)
  {
    DecValueOfNatToString(n);
    ToIntOfDigits(NatToString(n), host);
  }

  /** A decimal number beyond int64 is rejected by stoll. */
  lemma ToIntOfHugeDecimal(n: nat, host: Host)
    requires n > INT64_MAX
    ensures ToInt(NatToString(n), host) == Err("stoll threw: stoll")
  {
    DecValueOfNatToString(n);
    DigitsNotSpecial(NatToString(n));
  }

  /** A negative decimal number inside int64 is read back as itself. */
  lemma ToIntOfNegative(n: nat, host: Host)
    requires n <= -INT64_MIN
    ensures Yields(ToInt("-" + NatToString(n), host), -(n as int))
  {
    var d := NatToString(n);
    var s := "-" + d;
    DecValueOfNatToString(n);
    assert s[1..] == d;
    assert IsNumber(s) by {
      assert s[|s| - 1] == d[|d| - 1];
      forall i | 0 <= i < |s| ensures IsDigit(s[i]) || (i == 0 && s[i] == '-') {
        if i > 0 { assert s[i] == d[i - 1]; }
      }
    }
    assert !StartsWith(s, "0x") && !BoolTrue(s) && !BoolFalse(s) by { assert s[..1][0] == '-'; }
    assert !StartsWith(s, "rgba(") && !StartsWith(s, "rgb(") by { assert s[..1][0] == '-'; }
  }

  /** Text starting with true, on or yes is 1; text starting with false, off
      or no (and none of the former) is 0, whatever follows the word. */
  lemma ToIntOfBool(v: string, host: Host)
    ensures BoolTrue(v) ==> ToInt(v, host) == Ok(1)
    ensures BoolFalse(v) && !BoolTrue(v) ==> ToInt(v, host) == Ok(0)
  {
    BoolWordsNotColour(v);
  }

  /** A boolean word starts with a letter, so it is none of the hex or colour forms. */
  lemma BoolWordsNotColour(v: string)
    ensures BoolTrue(v) || BoolFalse(v) ==>
      !StartsWith(v, "0x") && !StartsWith(v, "rgba(") && !StartsWith(v, "rgb(")
  {
    if BoolTrue(v) || BoolFalse(v) {
      assert v[0] in {'t', 'o', 'y', 'f', 'n'};
    }
  }

  /** Plain text (no 0x, colour or boolean form) is accepted exactly when it
      is a decimal number inside int64, and then denotes that number. */
  lemma ToIntOfPlain(v: string, host: Host)
    requires !Special(v)
    ensures ToInt(v, host).Ok? <==> IsNumber(v) && StollDec(v).Some?
    ensures ToInt(v, host).Ok? ==> ToInt(v, host).value == StollDec(v).value
    ensures !IsNumber(v) ==> ToInt(v, host) == Err("cannot parse \"" + v + "\" as an int.")
  {
  }

  /** "0x" followed by hex digits is read as a base-16 number. */
  lemma ToIntOfHex(h: string, host: Host)
    requires |h| > 0 && AllHex(h) && HexValue(h) <= INT64_MAX
    ensures Yields(ToInt("0x" + h, host), HexValue(h))
  {
    StollHexOfPrefixed(h);
    assert ("0x" + h)[..2] == "0x";
  }

  /** Hex digits are neither whitespace nor commas. */
  lemma HexIsTrimmed(h: string)
    requires |h| > 0 && AllHex(h)
    ensures !IsSpace(h[0]) && !IsSpace(h[|h| - 1]) && Count(h, ',') == 0
  {
    assert IsHexDigit(h[0]) && IsHexDigit(h[|h| - 1]);
    assert ',' !in h by { assert !IsHexDigit(','); }
  }

  /** Regrouping the text of a call around its arguments. */
  lemma Parenthesised(fn: string, x: string, y: string, z: string)
    ensures fn + x + y + z + ")" == fn + (x + y + z) + ")"
  {
  }

  lemma Parenthesised4(fn: string, w: string, x: string, y: string, z: string)
    ensures fn + w + x + y + z + ")" == fn + (w + x + y + z) + ")"
  {
  }

  /** rgba() around eight hex digits, in either case, takes the hex branch and
      is reordered from RRGGBBAA into the ARGB layout the config holds. */
  lemma RgbaHex(h: string, host: Host)
    requires |h| == 8 && AllHex(h)
    ensures Yields(ToInt("rgba(" + h + ")", host), HexValue(h) / 0x100 + 0x1000000 * (HexValue(h) % 0x100))
  {
    HexValueBound(h);
    assert Pow16(8) == 0x1_0000_0000;
    HexIsTrimmed(h);
    StollHexOfDigits(h);
    ToIntOfRgbaText(h, host);
  }

  /** rgb() around six hex digits, in either case, is opaque: alpha 0xFF. */
  lemma RgbHex(h: string, host: Host)
    requires |h| == 6 && AllHex(h)
    ensures Yields(ToInt("rgb(" + h + ")", host), HexValue(h) + 0xFF000000)
  {
    HexValueBound(h);
    assert Pow16(6) == 0x100_0000;
    HexIsTrimmed(h);
    StollHexOfDigits(h);
    ToIntOfRgbText(h, host);
  }

  /** rgba(RRGGBBAA) spelled with lower-case digits, byte by byte. */
  lemma ToIntOfRgbaHex(r: Byte, g: Byte, b: Byte, a: Byte, host: Host)
    ensures Yields(ToInt("rgba(" + Hex2(r) + Hex2(g) + Hex2(b) + Hex2(a) + ")", host), Argb(a, r, g, b))
  {
    var h := Hex2(r) + Hex2(g) + Hex2(b) + Hex2(a);
    HexValueOfBytes(r, g, b, a);
    var x := HexValue(h);
    assert x == (r * 0x10000 + g * 0x100 + b) * 0x100 + a;
    assert x / 0x100 == r * 0x10000 + g * 0x100 + b;
    assert x % 0x100 == a;
    Parenthesised4("rgba(", Hex2(r), Hex2(g), Hex2(b), Hex2(a));
    RgbaHex(h, host);
  }

  /** rgb(RRGGBB) spelled with lower-case digits, byte by byte. */
  lemma ToIntOfRgbHex(r: Byte, g: Byte, b: Byte, host: Host)
    ensures Yields(ToInt("rgb(" + Hex2(r) + Hex2(g) + Hex2(b) + ")", host), Argb(0xFF, r, g, b))
  {
    var h := Hex2(r) + Hex2(g) + Hex2(b);
    HexValueOfThreeBytes(r, g, b);
    Parenthesised("rgb(", Hex2(r), Hex2(g), Hex2(b));
    RgbHex(h, host);
  }

  lemma ToIntOfRgbaText(t: string, host: Host)
    requires |t| > 0 && !IsSpace(t[0]) && !IsSpace(t[|t| - 1])
    ensures ToInt("rgba(" + t + ")", host) == Rgba(t, host)
  {
    InnerOf("rgba(", t);
    var v := "rgba(" + t + ")";
    assert !StartsWith(v, "0x") by { assert v[..2][0] == 'r'; }
  }

  lemma ToIntOfRgbText(t: string, host: Host)
    requires |t| > 0 && !IsSpace(t[0]) && !IsSpace(t[|t| - 1])
    ensures ToInt("rgb(" + t + ")", host) == Rgb(t, host)
  {
    InnerOf("rgb(", t);
    var v := "rgb(" + t + ")";
    assert !StartsWith(v, "0x") by { assert v[..2][0] == 'r'; }
    assert !StartsWith(v, "rgba(") by { assert v[..5][3] == '('; }
  }

  lemma TrimOfDigits(s: string)
    requires |s| > 0 && AllDigits(s)
    ensures Trim(s) == s
  {
    assert IsDigit(s[0]) && IsDigit(s[|s| - 1]);
  }

  lemma NoCommaInDigits(s: string)
    requires AllDigits(s)
    ensures ',' !in s
  {
    assert !IsDigit(',');
  }

  /** The fields of decimal channels joined with commas. */
  lemma SplitOfChannels(parts: seq<string>)
    requires |parts| > 0
    requires forall i :: 0 <= i < |parts| ==> |parts[i]| > 0 && AllDigits(parts[i])
    ensures SplitOn(JoinWith(parts, ','), ',') == parts
    ensures Count(JoinWith(parts, ','), ',') == |parts| - 1
  {
    forall i | 0 <= i < |parts| ensures ',' !in parts[i] {
      NoCommaInDigits(parts[i]);
    }
    SplitOnJoin(parts, ',');
    SplitOnCount(JoinWith(parts, ','), ',');
  }

  /** A channel field: once trimmed, it converts to the given number. */
  predicate ChannelField(x: string, v: int, host: Host) {
    Yields(ToInt(Trim(x), host), v)
  }

  lemma DecimalChannel(d: string, host: Host)
    requires |d| > 0 && AllDigits(d) && DecValue(d) <= INT64_MAX
    ensures ChannelField(d, DecValue(d), host)
  {
    TrimOfDigits(d);
    ToIntOfDigits(d, host);
  }

  /** Three fields that convert, whatever their range, give the wrapped int64
      sum of alpha 0xFF and the shifted channels. */
  lemma RgbOfFields(t: string, r: int, g: int, b: int, host: Host)
    requires Count(t, ',') == 2 && |SplitOn(t, ',')| == 3
    requires ChannelField(SplitOn(t, ',')[0], r, host)
    requires ChannelField(SplitOn(t, ',')[1], g, host)
    requires ChannelField(SplitOn(t, ',')[2], b, host)
    ensures Yields(Rgb(t, host), Wrap64(Argb(0xFF, r, g, b)))
  {
    SplitOnCount(t, ',');
    var f := SplitOn(t, ',');
    assert Rgb(t, host) == RgbChannels(f, t, host);
  }

  lemma RgbaOfFields(t: string, r: int, g: int, b: int, a: Float32, host: Host)
    requires Count(t, ',') == 3 && |SplitOn(t, ',')| == 4
    requires ChannelField(SplitOn(t, ',')[0], r, host)
    requires ChannelField(SplitOn(t, ',')[1], g, host)
    requires ChannelField(SplitOn(t, ',')[2], b, host)
    requires host.stof(Trim(SplitOn(t, ',')[3])) == Some(a)
    ensures Yields(Rgba(t, host), Wrap64(Argb(host.alphaByte(a), r, g, b)))
  {
    SplitOnCount(t, ',');
    var f := SplitOn(t, ',');
    assert Rgba(t, host) == RgbaChannels(f, t, host);
  }

  /** Text facts about comma-free fields joined with commas, when the first
      field starts and the last one ends without whitespace. */
  lemma JoinedChannels(parts: seq<string>)
    requires |parts| > 1
    requires forall i :: 0 <= i < |parts| ==> ',' !in parts[i]
    requires |parts[0]| > 0 && !IsSpace(parts[0][0])
    requires |parts[|parts| - 1]| > 0 && !IsSpace(parts[|parts| - 1][|parts[|parts| - 1]| - 1])
    ensures var t := JoinWith(parts, ',');
      && SplitOn(t, ',') == parts && Count(t, ',') == |parts| - 1
      && |t| > 0 && !IsSpace(t[0]) && !IsSpace(t[|t| - 1])
  {
    var t := JoinWith(parts, ',');
    SplitOnJoin(parts, ',');
    SplitOnCount(t, ',');
    JoinWithFirst(parts, ',');
    JoinWithLast(parts, ',');
  }

  /** The text of three comma-free channels joined with commas. */
  lemma JoinedThree(r: string, g: string, b: string)
    requires ',' !in r && ',' !in g && ',' !in b
    requires |r| > 0 && !IsSpace(r[0]) && |b| > 0 && !IsSpace(b[|b| - 1])
    ensures var t := JoinWith([r, g, b], ',');
      && SplitOn(t, ',') == [r, g, b] && Count(t, ',') == 2
      && |t| > 0 && !IsSpace(t[0]) && !IsSpace(t[|t| - 1])
  {
    JoinedChannels([r, g, b]);
  }

  /** The text of four comma-free channels joined with commas. */
  lemma JoinedFour(r: string, g: string, b: string, a: string)
    requires ',' !in r && ',' !in g && ',' !in b && ',' !in a
    requires |r| > 0 && !IsSpace(r[0]) && |a| > 0 && !IsSpace(a[|a| - 1])
    ensures var t := JoinWith([r, g, b, a], ',');
      && SplitOn(t, ',') == [r, g, b, a] && Count(t, ',') == 3
      && |t| > 0 && !IsSpace(t[0]) && !IsSpace(t[|t| - 1])
  {
    JoinedChannels([r, g, b, a]);
  }

  /** rgb(r,g,b): each channel is converted on its own, so any channel
      configStringToInt accepts (hex, negative, above 255) contributes its
      value, and the sum wraps as int64. */
  lemma ToIntOfRgbChannels(r: string, g: string, b: string, x: int, y: int, z: int, host: Host)
    requires ',' !in r && ',' !in g && ',' !in b
    requires |r| > 0 && !IsSpace(r[0]) && |b| > 0 && !IsSpace(b[|b| - 1])
    requires ChannelField(r, x, host) && ChannelField(g, y, host) && ChannelField(b, z, host)
    ensures Yields(ToInt("rgb(" + JoinWith([r, g, b], ',') + ")", host), Wrap64(Argb(0xFF, x, y, z)))
  {
    var t := JoinWith([r, g, b], ',');
    JoinedThree(r, g, b);
    RgbOfFields(t, x, y, z, host);
    ToIntOfRgbText(t, host);
  }

  /** rgba(r,g,b,alpha): the same, with a float alpha scaled to a byte. */
  lemma ToIntOfRgbaChannels(r: string, g: string, b: string, alpha: string, x: int, y: int, z: int, f: Float32, host: Host)
    requires ',' !in r && ',' !in g && ',' !in b && ',' !in alpha
    requires |r| > 0 && !IsSpace(r[0]) && |alpha| > 0 && !IsSpace(alpha[|alpha| - 1])
    requires ChannelField(r, x, host) && ChannelField(g, y, host) && ChannelField(b, z, host)
    requires host.stof(Trim(alpha)) == Some(f)
    ensures Yields(ToInt("rgba(" + JoinWith([r, g, b, alpha], ',') + ")", host),
                   Wrap64(Argb(host.alphaByte(f), x, y, z)))
  {
    var t := JoinWith([r, g, b, alpha], ',');
    JoinedFour(r, g, b, alpha);
    RgbaOfFields(t, x, y, z, f, host);
    ToIntOfRgbaText(t, host);
  }
}
