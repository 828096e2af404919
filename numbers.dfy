/**
 * Numbers as the JavaScript code reads and writes them: decimal digit strings, `parseFloat`,
 * unary `+` (Number coercion), `parseInt`, `toFixed(2)` and template-literal integers.
 * A number is held exactly as a decimal `mantissa / 10^scale`; NaN is `None`.
 */
module Numbers {
  import opened Wrappers
  import opened Text

  predicate IsDigit(c: char) {
    '0' <= c <= '9'
  }

  predicate AllDigits(s: string) {
    forall i :: 0 <= i < |s| ==> IsDigit(s[i])
  }

  function DigitValue(c: char): (d: nat)
    requires IsDigit(c)
    ensures d < 10
  {
    c as int - '0' as int
  }

  function DigitChar(d: nat): (c: char)
    requires d < 10
    ensures IsDigit(c) && DigitValue(c) == d
  {
    ('0' as int + d) as char
  }

  /** The value of a string of decimal digits, most significant first. */
  function DigitsValue(s: string): nat
    requires AllDigits(s)
  {
    if s == [] then 0 else DigitsValue(s[..|s| - 1]) * 10 + DigitValue(s[|s| - 1])
  }

  function Pow10(n: nat): (p: nat)
    ensures p >= 1
  {
    if n == 0 then 1 else 10 * Pow10(n - 1)
  }

  /** Digits appended after a prefix shift the prefix by a power of ten. */
  lemma {:induction false} DigitsValueAppend(a: string, b: string)
    requires AllDigits(a) && AllDigits(b)
    ensures AllDigits(a + b)
    ensures DigitsValue(a + b) == DigitsValue(a) * Pow10(|b|) + DigitsValue(b)
  {
    if b == [] {
      assert a + b == a;
    } else {
      var b' := b[..|b| - 1];
      assert (a + b)[..|a + b| - 1] == a + b';
      assert (a + b)[|a + b| - 1] == b[|b| - 1];
      DigitsValueAppend(a, b');
      ShiftDigit(DigitsValue(a), Pow10(|b'|), DigitsValue(b'), DigitValue(b[|b| - 1]));
    }
  }

  lemma ShiftDigit(x: nat, p: nat, y: nat, d: nat)
    ensures (x * p + y) * 10 + d == x * (10 * p) + (y * 10 + d)
  {
  }

  /** `${n}` for a natural number: its decimal digits, without leading zeros. */
  function NatToString(n: nat): (s: string)
    ensures |s| > 0 && AllDigits(s)
    ensures |s| > 1 ==> s[0] != '0'
  {
    if n < 10 then [DigitChar(n)] else NatToString(n / 10) + [DigitChar(n % 10)]
  }

  /** Reading the digits back gives the number. */
  lemma {:induction false} NatToStringRoundTrip(n: nat)
    ensures DigitsValue(NatToString(n)) == n
  {
    if n >= 10 {
      var s := NatToString(n);
      assert s[..|s| - 1] == NatToString(n / 10);
      NatToStringRoundTrip(n / 10);
    }
  }

  /** Distinct numbers print differently. */
  lemma NatToStringInjective(m: nat, n: nat)
    requires NatToString(m) == NatToString(n)
    ensures m == n
  {
    NatToStringRoundTrip(m);
    NatToStringRoundTrip(n);
  }

  /** `${i}` for an integer. */
  function IntToString(i: int): (s: string)
    ensures |s| > 0 && (s[0] == '-' <==> i < 0)
    ensures i >= 0 ==> AllDigits(s)
  {
    if i < 0 then "-" + NatToString(-i) else NatToString(i)
  }

  /** A decimal number `mantissa / 10^scale`. */
  datatype Decimal = Decimal(mantissa: int, scale: nat)

  /** JavaScript truthiness of a number: neither NaN nor zero. */
  predicate Truthy(x: Option<Decimal>) {
    x.Some? && x.value.mantissa != 0
  }

  /** The result of scanning a decimal literal at the start of a string. */
  datatype Scan = NoNumber | Scanned(value: Decimal, length: nat)

  /** The number of leading decimal digits. */
  function DigitRun(s: string): (n: nat)
    ensures n <= |s| && AllDigits(s[..n])
    ensures n < |s| ==> !IsDigit(s[n])
  {
    if s != [] && IsDigit(s[0]) then
      var n := 1 + DigitRun(s[1..]);
      assert s[..n] == [s[0]] + s[1..][..n - 1];
      n
    else 0
  }

  /** A digit run ends where the first non-digit starts. */
  lemma {:induction false} DigitRunPrefix(a: string, b: string)
    requires AllDigits(a)
    requires b == [] || !IsDigit(b[0])
    ensures DigitRun(a + b) == |a|
  {
    if a == [] {
      assert a + b == b;
    } else {
      assert (a + b)[1..] == a[1..] + b;
      DigitRunPrefix(a[1..], b);
    }
  }

  /** `digits [. digits]` with at least one digit, unsigned. */
  function ScanUnsigned(s: string): (sc: Scan)
    ensures sc.Scanned? ==> 0 < sc.length <= |s| && sc.value.mantissa >= 0
  {
    var ip := DigitRun(s);
    var whole := DigitsValue(s[..ip]);
    if ip < |s| && s[ip] == '.' then
      var frac := s[ip + 1..];
      var fp := DigitRun(frac);
      if ip + fp == 0 then NoNumber
      else Scanned(Decimal(DigitsValue(s[..ip] + frac[..fp]), fp), ip + 1 + fp)
    else if ip == 0 then NoNumber
    else Scanned(Decimal(whole, 0), ip)
  }

  /** An optionally signed decimal literal (exponents are not modelled). */
  function ScanDecimal(s: string): (sc: Scan)
    ensures sc.Scanned? ==> 0 < sc.length <= |s|
  {
    if s != [] && (s[0] == '+' || s[0] == '-') then
      match ScanUnsigned(s[1..])
      case NoNumber => NoNumber
      case Scanned(d, n) => Scanned(if s[0] == '-' then Decimal(-d.mantissa, d.scale) else d, n + 1)
    else ScanUnsigned(s)
  }

  /** `parseFloat(s)`: the longest decimal prefix after leading white space; NaN when there is none. */
  function ParseFloat(s: string): Option<Decimal> {
    match ScanDecimal(TrimStart(s))
    case NoNumber => None
    case Scanned(d, _) => Some(d)
  }

  /** `+s` (Number coercion): the trimmed string must be a decimal literal as a whole; "" is 0. */
  function NumberOf(s: string): (x: Option<Decimal>)
    ensures Trim(s) == [] ==> x == Some(Decimal(0, 0))
  {
    var t := Trim(s);
    if t == [] then Some(Decimal(0, 0))
    else match ScanDecimal(t)
      case NoNumber => None
      case Scanned(d, n) => if n == |t| then Some(d) else None
  }

  predicate IsHexDigit(c: char) {
    IsDigit(c) || 'a' <= c <= 'f' || 'A' <= c <= 'F'
  }

  function HexValue(c: char): (d: nat)
    requires IsHexDigit(c)
    ensures d < 16
  {
    if IsDigit(c) then DigitValue(c)
    else if 'a' <= c <= 'f' then c as int - 'a' as int + 10
    else c as int - 'A' as int + 10
  }

  predicate AllHexDigits(s: string) {
    forall i :: 0 <= i < |s| ==> IsHexDigit(s[i])
  }

  /** The value of a string of hexadecimal digits, most significant first. */
  function HexDigitsValue(s: string): nat
    requires AllHexDigits(s)
  {
    if s == [] then 0 else HexDigitsValue(s[..|s| - 1]) * 16 + HexValue(s[|s| - 1])
  }

  /** The length of the run of hexadecimal digits that starts `s`. */
  function HexRun(s: string): (n: nat)
    ensures n <= |s| && AllHexDigits(s[..n])
    ensures n < |s| ==> !IsHexDigit(s[n])
  {
    if s != [] && IsHexDigit(s[0]) then
      assert s[1..][..HexRun(s[1..])] == s[1..1 + HexRun(s[1..])];
      1 + HexRun(s[1..])
    else 0
  }

  /** `parseInt` without a radix reads "0x" or "0X" as the start of a hexadecimal number. */
  predicate HexPrefixed(s: string) {
    |s| >= 2 && s[0] == '0' && (s[1] == 'x' || s[1] == 'X')
  }

  /**
   * `parseInt(s)` without a radix: after leading white space and an optional sign, a run of
   * hexadecimal digits behind a "0x" or "0X" prefix, or else a run of decimal digits; NaN when
   * the run is empty.
   */
  function ParseInt(s: string): Option<int> {
    var t := TrimStart(s);
    var signed := t != [] && (t[0] == '+' || t[0] == '-');
    var body := if signed then t[1..] else t;
    var magnitude: Option<nat> :=
      if HexPrefixed(body) then
        var n := HexRun(body[2..]);
        if n == 0 then None else Some(HexDigitsValue(body[2..][..n]))
      else
        var n := DigitRun(body);
        if n == 0 then None else Some(DigitsValue(body[..n]));
    match magnitude
    case None => None
    case Some(v) => if signed && t[0] == '-' then Some(-(v as int)) else Some(v as int)
  }

  /** A run of hexadecimal digits is read whole. */
  lemma {:induction false} HexRunAll(u: string)
    requires AllHexDigits(u)
    ensures HexRun(u) == |u|
  {
    if u != [] {
      HexRunAll(u[1..]);
    }
  }

  /** `parseInt` reads a "0x" prefix followed by hexadecimal digits as a base-16 number. */
  lemma ParseIntHex(u: string)
    requires u != [] && AllHexDigits(u)
    ensures ParseInt("0x" + u) == Some(HexDigitsValue(u))
  {
    var t := "0x" + u;
    assert TrimStart(t) == t;
    assert HexPrefixed(t) && t[2..] == u;
    HexRunAll(u);
    assert u[..|u|] == u;
  }

  /** Text that starts with a digit has no leading white space and no sign. */
  lemma DigitsUntrimmed(s: string)
    requires s != [] && IsDigit(s[0])
    ensures TrimStart(s) == s && s[0] != '+' && s[0] != '-'
  {
  }

  /** `parseInt` reads back what `${n}` printed. */
  lemma ParseIntNatToString(n: nat)
    ensures ParseInt(NatToString(n)) == Some(n)
  {
    var s := NatToString(n);
    assert IsDigit(s[0]);
    DigitsUntrimmed(s);
    assert !HexPrefixed(s);
    assert s + [] == s;
    DigitRunPrefix(s, []);
    assert s[..|s|] == s;
    NatToStringRoundTrip(n);
  }

  function Abs(i: int): nat {
    if i < 0 then -i else i
  }

  /**
   * The value in hundredths, rounded half away from zero: what `toFixed(2)` computes for a
   * decimal input (binary floating-point ties are not modelled).
   */
  function Cents(d: Decimal): int {
    if d.scale == 0 then d.mantissa * 100
    else if d.scale == 1 then d.mantissa * 10
    else if d.mantissa >= 0 then RoundHalfUp(d.mantissa, d.scale - 2)
    else -(RoundHalfUp(-d.mantissa, d.scale - 2) as int)
  }

  /** `m` with its last `k` digits dropped: `m / 10^k`. */
  function DropDigits(m: nat, k: nat): nat {
    if k == 0 then m else DropDigits(m / 10, k - 1)
  }

  /**
   * `m / 10^k` rounded to the nearest integer, halves upwards: only the first dropped digit
   * decides, so the other dropped digits are cut off first.
   */
  function RoundHalfUp(m: nat, k: nat): nat {
    if k == 0 then m else (DropDigits(m, k - 1) + 5) / 10
  }

  /** A number of hundredths written with exactly two decimals, e.g. "159.90" or "-0.05". */
  function FormatCents(c: int): (s: string)
    ensures IsFixed2(s)
  {
    var a := Abs(c);
    (if c < 0 then "-" else "") + NatToString(a / 100) + "." + [DigitChar(a % 100 / 10), DigitChar(a % 10)]
  }

  /** `x.toFixed(2)`: "NaN" for NaN, otherwise two decimals. */
  function FormatFixed2(x: Option<Decimal>): string {
    match x
    case None => "NaN"
    case Some(d) => FormatCents(Cents(d))
  }

  /** An optional minus sign, at least one digit, a point and exactly two digits. */
  predicate IsFixed2(s: string) {
    |s| >= 4 && s[|s| - 3] == '.' && IsDigit(s[|s| - 2]) && IsDigit(s[|s| - 1])
    && var head := if s[0] == '-' then s[1..|s| - 3] else s[..|s| - 3];
    head != [] && AllDigits(head)
  }

  /** The scanner on a digit run, a point and a second digit run. */
  lemma ScanPointed(u: string, n: nat, fp: nat)
    requires DigitRun(u) == n < |u| && u[n] == '.' && DigitRun(u[n + 1..]) == fp && n + fp > 0
    ensures ScanUnsigned(u) == Scanned(Decimal(DigitsValue(u[..n] + u[n + 1..][..fp]), fp), n + 1 + fp)
  {
  }

  /** The pieces of `digits.digits` as the scanner sees them. */
  lemma PointedParts(ip: string, fr: string)
    requires AllDigits(ip)
    ensures var u := ip + ['.'] + fr;
      DigitRun(u) == |ip| < |u| && u[|ip|] == '.' && u[..|ip|] == ip && u[|ip| + 1..] == fr
  {
    var u := ip + ['.'] + fr;
    assert u == ip + (['.'] + fr);
    DigitRunPrefix(ip, ['.'] + fr);
  }

  /** A run of digits is scanned whole. */
  lemma DigitRunAll(s: string)
    requires AllDigits(s)
    ensures DigitRun(s) == |s| && s[..|s|] == s
  {
    assert s + [] == s;
    DigitRunPrefix(s, []);
  }

  /** Scanning `digits.dd` reads the integer part and both decimals. */
  lemma ScanTwoDecimals(ip: string, fr: string)
    requires ip != [] && AllDigits(ip) && |fr| == 2 && AllDigits(fr)
    ensures ScanUnsigned(ip + ['.'] + fr)
         == Scanned(Decimal(DigitsValue(ip) * 100 + DigitsValue(fr), 2), |ip| + 3)
  {
    var u := ip + ['.'] + fr;
    PointedParts(ip, fr);
    DigitRunAll(fr);
    ScanPointed(u, |ip|, 2);
    PointedDigits(ip, fr);
    var v := DigitsValue(u[..|ip|] + u[|ip| + 1..][..2]);
    assert ScanUnsigned(u) == Scanned(Decimal(v, 2), |ip| + 3);
    assert v == DigitsValue(ip) * 100 + DigitsValue(fr);
  }

  /** The digits the scanner reads from `digits.dd`, taken as one run, have the value in hundredths. */
  lemma PointedDigits(ip: string, fr: string)
    requires AllDigits(ip) && |fr| == 2 && AllDigits(fr)
    ensures var u := ip + ['.'] + fr;
      DigitsValue(u[..|ip|] + u[|ip| + 1..][..2]) == DigitsValue(ip) * 100 + DigitsValue(fr)
  {
    var u := ip + ['.'] + fr;
    assert u[..|ip|] + u[|ip| + 1..][..2] == ip + fr;
    DigitsValueAppend(ip, fr);
    Pow10Two();
  }

  lemma Pow10Two()
    ensures Pow10(2) == 100
  {
  }

  lemma TwoDigitsValue(h: nat, l: nat)
    requires h < 10 && l < 10
    ensures DigitsValue([DigitChar(h), DigitChar(l)]) == h * 10 + l
  {
    var fr := [DigitChar(h), DigitChar(l)];
    var hi := [DigitChar(h)];
    assert hi[..0] == [];
    assert DigitsValue(hi) == DigitsValue([]) * 10 + DigitValue(DigitChar(h));
    assert fr[..1] == hi;
    assert DigitsValue(fr) == DigitsValue(hi) * 10 + DigitValue(DigitChar(l));
  }

  lemma CentsSplit(a: nat)
    ensures a / 100 * 100 + (a % 100 / 10 * 10 + a % 10) == a
  {
  }

  /** The unsigned part of a two-decimal string scans to its value in hundredths. */
  lemma ScanFormattedMagnitude(a: nat)
    ensures ScanUnsigned(NatToString(a / 100) + ['.'] + [DigitChar(a % 100 / 10), DigitChar(a % 10)])
         == Scanned(Decimal(a, 2), |NatToString(a / 100)| + 3)
  {
    var ip := NatToString(a / 100);
    var fr := [DigitChar(a % 100 / 10), DigitChar(a % 10)];
    NatToStringRoundTrip(a / 100);
    TwoDigitsValue(a % 100 / 10, a % 10);
    ScanTwoDecimals(ip, fr);
    CentsSplit(a);
  }

  /** `parseFloat` on text that starts with a digit, after an optional minus sign. */
  lemma ParseFloatDigits(u: string, m: int, scale: nat, n: nat, negative: bool)
    requires u != [] && IsDigit(u[0]) && ScanUnsigned(u) == Scanned(Decimal(m, scale), n)
    ensures ParseFloat((if negative then "-" else "") + u) == Some(Decimal(if negative then -m else m, scale))
  {
    var t := (if negative then "-" else "") + u;
    if negative {
      assert t[0] == '-' && t[1..] == u;
      ScanNegative(t, u, Decimal(m, scale), n);
    } else {
      assert t == u;
      ScanPositive(u, Decimal(m, scale), n);
    }
  }

  lemma ScanNegative(t: string, u: string, d: Decimal, n: nat)
    requires t != [] && t[0] == '-' && t[1..] == u && ScanUnsigned(u) == Scanned(d, n)
    ensures ParseFloat(t) == Some(Decimal(-d.mantissa, d.scale))
  {
    assert TrimStart(t) == t;
    assert ScanDecimal(t) == Scanned(Decimal(-d.mantissa, d.scale), n + 1);
  }

  lemma ScanPositive(u: string, d: Decimal, n: nat)
    requires u != [] && IsDigit(u[0]) && ScanUnsigned(u) == Scanned(d, n)
    ensures ParseFloat(u) == Some(d)
  {
    assert TrimStart(u) == u;
    assert ScanDecimal(u) == ScanUnsigned(u);
  }

  /** Parsing a two-decimal string gives its exact value in hundredths. */
  lemma ParseFormatCents(c: int)
    ensures ParseFloat(FormatCents(c)) == Some(Decimal(c, 2))
  {
    var a := Abs(c);
    var ip := NatToString(a / 100);
    var u := ip + ['.'] + [DigitChar(a % 100 / 10), DigitChar(a % 10)];
    assert FormatCents(c) == (if c < 0 then "-" else "") + u;
    assert u[0] == ip[0];
    ScanFormattedMagnitude(a);
    ParseFloatDigits(u, a, 2, |ip| + 3, c < 0);
    assert (if c < 0 then -(a as int) else a as int) == c;
  }

  /** `toFixed(2)` of the parsed `toFixed(2)` output is the same string. */
  lemma Fixed2Idempotent(x: Option<Decimal>)
    ensures FormatFixed2(ParseFloat(FormatFixed2(x))) == FormatFixed2(x)
  {
    match x
    case None =>
      NaNUnparsed();
    case Some(d) =>
      var c := Cents(d);
      ParseFormatCents(c);
      CentsExact(c);
  }

  /** "NaN" holds no decimal number. */
  lemma NaNUnparsed()
    ensures ParseFloat("NaN") == None
  {
    var t := "NaN";
    assert TrimStart(t) == t;
    assert DigitRun(t) == 0;
  }

  /** A value already in hundredths needs no rounding. */
  lemma CentsExact(c: int)
    ensures Cents(Decimal(c, 2)) == c
  {
  }
  /** Number coercion of text that starts and ends with a digit and scans whole. */
  lemma NumberOfDigits(u: string, d: Decimal)
    requires u != [] && IsDigit(u[0]) && IsDigit(u[|u| - 1])
    requires ScanUnsigned(u) == Scanned(d, |u|)
    ensures NumberOf(u) == Some(d)
  {
    TrimTidy(u);
    assert ScanDecimal(u) == ScanUnsigned(u);
  }

  /** The same after a minus sign. */
  lemma NumberOfNegated(t: string, u: string, d: Decimal)
    requires u != [] && IsDigit(u[|u| - 1]) && t == "-" + u
    requires ScanUnsigned(u) == Scanned(d, |u|)
    ensures NumberOf(t) == Some(Decimal(-d.mantissa, d.scale))
  {
    assert t[|t| - 1] == u[|u| - 1] && t[1..] == u;
    TrimTidy(t);
    assert ScanDecimal(t) == Scanned(Decimal(-d.mantissa, d.scale), |t|);
  }

  /** Number coercion reads a printed natural number back exactly, as `+variant.sku` does a numeric SKU. */
  lemma NumberOfNatToString(n: nat)
    ensures NumberOf(NatToString(n)) == Some(Decimal(n, 0))
  {
    var s := NatToString(n);
    DigitRunAll(s);
    NatToStringRoundTrip(n);
    assert ScanUnsigned(s) == Scanned(Decimal(n, 0), |s|);
    NumberOfDigits(s, Decimal(n, 0));
  }

  /** The unsigned part of the two-decimal text of `a` hundredths. */
  function Magnitude(a: nat): string {
    NatToString(a / 100) + ['.'] + [DigitChar(a % 100 / 10), DigitChar(a % 10)]
  }

  /** The unsigned part starts and ends with a digit and scans whole to its value. */
  lemma MagnitudeScan(a: nat)
    ensures var u := Magnitude(a);
      u != [] && IsDigit(u[0]) && IsDigit(u[|u| - 1]) && ScanUnsigned(u) == Scanned(Decimal(a, 2), |u|)
  {
    var ip := NatToString(a / 100);
    var u := Magnitude(a);
    assert u[0] == ip[0] && u[|u| - 1] == DigitChar(a % 10) && |u| == |ip| + 3;
    ScanFormattedMagnitude(a);
  }

  /** Number coercion reads a two-decimal string whole and exactly, as `+variant.price` does a price. */
  lemma NumberOfCents(c: int)
    ensures NumberOf(FormatCents(c)) == Some(Decimal(c, 2))
  {
    var a := Abs(c);
    var u := Magnitude(a);
    MagnitudeScan(a);
    if c < 0 {
      assert FormatCents(c) == "-" + u;
      NumberOfNegated(FormatCents(c), u, Decimal(a, 2));
    } else {
      assert FormatCents(c) == u;
      NumberOfDigits(u, Decimal(a, 2));
    }
  }
}
