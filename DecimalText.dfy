/**
  The text side of amounts: what `new Decimal(text)` (decimal.js) reads from
  a string, and the text `String(x)` gives an amount. The main fact is the
  round trip: reading the text of an amount gives that amount back.
 */
module DecimalText {
  import opened Wrappers
  import opened Decimals

  /** What decimal.js makes of a string: a finite value, NaN, an infinity,
      or an exception (`Rejected`). */
  datatype Reading = Value(v: real) | NotANumber | Infinite(negative: bool) | Rejected

  predicate IsDigit(c: char) {
    '0' <= c <= '9'
  }

  predicate AllDigits(s: string) {
    forall i :: 0 <= i < |s| ==> IsDigit(s[i])
  }

  function DigitValue(c: char): (d: nat)
    requires IsDigit(c)
    ensures d < 10
  {
    c as int - '0' as int
  }

  function DigitChar(d: nat): (c: char)
    requires d < 10
    ensures IsDigit(c) && DigitValue(c) == d
  {
    ('0' as int + d) as char
  }

  /** The number a string of decimal digits denotes (leading zeros allowed). */
  function DigitsValue(s: string): nat
    requires AllDigits(s)
  {
    if s == [] then 0 else 10 * DigitsValue(s[..|s| - 1]) + DigitValue(s[|s| - 1])
  }

  /** The shortest decimal text of n, as `String(n)` writes it. */
  function NatText(n: nat): (s: string)
    ensures |s| > 0 && AllDigits(s) && DigitsValue(s) == n
    ensures (s[0] == '0') == (n == 0) && (n == 0 ==> s == "0")
  {
    if n < 10 then
      [DigitChar(n)]
    else
      var s := NatText(n / 10) + [DigitChar(n % 10)];
      assert s[..|s| - 1] == NatText(n / 10);
      s
  }

  /** n written with exactly k digits, leading zeros included. */
  function PadDigits(n: nat, k: nat): (s: string)
    requires n < Pow10(k)
    ensures |s| == k && AllDigits(s) && DigitsValue(s) == n
  {
    if k == 0 then
      []
    else
      var s := PadDigits(n / 10, k - 1) + [DigitChar(n % 10)];
      assert s[..|s| - 1] == PadDigits(n / 10, k - 1);
      s
  }

  /** The quotient of a by p. */
  function Quot(a: nat, p: nat): nat
    requires p >= 1
  {
    a / p
  }

  /** The remainder of a by p. */
  function Rem(a: nat, p: nat): (r: nat)
    requires p >= 1
    ensures r < p
  {
    a % p
  }

  lemma QuotRem(a: nat, p: nat)
    requires p >= 1
    ensures a == Quot(a, p) * p + Rem(a, p)
  {}

  /** The unsigned text of a / 10^j: the integer part without leading
      zeros, then a point and exactly j fractional digits when j > 0. */
  function UnsignedText(a: nat, j: nat): (s: string)
    ensures |s| > 0 && IsDigit(s[0])
  {
    var ip := NatText(Quot(a, Pow10(j)));
    if j == 0 then ip else ip + "." + PadDigits(Rem(a, Pow10(j)), j)
  }

  /** The text of m / 10^j, with a minus sign when m is negative. */
  function DigitsText(m: int, j: nat): (s: string)
    ensures |s| > 0
  {
    if m < 0 then "-" + UnsignedText(Magnitude(m), j) else UnsignedText(m, j)
  }

  function Magnitude(m: int): (a: nat)
    ensures m < 0 ==> a as int == -m
    ensures m >= 0 ==> a as int == m
  {
    if m < 0 then -m else m
  }

  /** `String(x)` for an amount with at most k fractional digits: the
      fraction is written only when not zero, and without trailing zeros,
      that is with the fewest digits that still hold x. */
  function Format(x: real, k: nat): (s: string)
    requires IsScaled(x, k)
    ensures |s| > 0
  {
    if k > 0 && IsScaled(x, k - 1) then Format(x, k - 1) else DigitsText(Scale(x, k).Floor, k)
  }

  /** The number of fractional digits `Format(x, k)` writes. */
  function Places(x: real, k: nat): (j: nat)
    requires IsScaled(x, k)
    ensures j <= k && IsScaled(x, j) && (j == 0 || !IsScaled(x, j - 1))
  {
    if k > 0 && IsScaled(x, k - 1) then Places(x, k - 1) else k
  }

  /** The first position of s holding a decimal point, or |s| if none does. */
  function FindPoint(s: string): (i: nat)
    ensures i <= |s|
    ensures forall j :: 0 <= j < i ==> s[j] != '.'
    ensures i < |s| ==> s[i] == '.'
  {
    if s == [] || s[0] == '.' then 0 else 1 + FindPoint(s[1..])
  }

  predicate IsExponentMark(c: char) {
    c == 'e' || c == 'E'
  }

  /** The first position of s holding `e` or `E`, or |s| if none does. */
  function FindExponent(s: string): (i: nat)
    ensures i <= |s|
    ensures forall j :: 0 <= j < i ==> !IsExponentMark(s[j])
    ensures i < |s| ==> IsExponentMark(s[i])
  {
    if s == [] || IsExponentMark(s[0]) then 0 else 1 + FindExponent(s[1..])
  }

  /** The value of the digits ip before a point and fp after it. */
  function MantissaValue(ip: string, fp: string): Option<real> {
    if AllDigits(ip) && AllDigits(fp) && |ip| + |fp| > 0 then
      Some(DigitsValue(ip) as real + Unscale(DigitsValue(fp), |fp|))
    else
      None
  }

  /** Digits with an optional point: `\d+(\.\d*)?|\.\d+`. */
  function ReadMantissa(m: string): Option<real> {
    var p := FindPoint(m);
    if p < |m| then MantissaValue(m[..p], m[p + 1..]) else MantissaValue(m, "")
  }

  /** The exponent after `e`: `[+-]?\d+`. */
  function ReadExponent(u: string): Option<int> {
    var negative := |u| > 0 && u[0] == '-';
    var ds := if |u| > 0 && (u[0] == '-' || u[0] == '+') then u[1..] else u;
    if |ds| > 0 && AllDigits(ds) then
      var e: int := if negative then -(DigitsValue(ds) as int) else DigitsValue(ds);
      Some(e)
    else
      None
  }

  function ShiftBy(m: real, e: int): real {
    if e >= 0 then m * Pow10(e) as real else m / Pow10(-e) as real
  }

  /** An unsigned decimal literal, case-insensitive exponent included. */
  function ReadNumeral(t: string): Option<real> {
    var e := FindExponent(t);
    match ReadMantissa(t[..e])
    case None => None
    case Some(m) =>
      if e == |t| then Some(m)
      else
        match ReadExponent(t[e + 1..])
        case None => None
        case Some(x) => Some(ShiftBy(m, x))
  }

  function Negated(r: Reading): Reading {
    match r
    case Value(v) => Value(-v)
    case Infinite(negative) => Infinite(!negative)
    case _ => r
  }

  function ReadUnsigned(t: string): Reading {
    match ReadNumeral(t)
    case Some(v) => Value(v)
    case None =>
      if t == "NaN" then NotANumber
      else if t == "Infinity" then Infinite(false)
      else Rejected
  }

  /** `new Decimal(s)`: a leading sign, then a literal, `NaN` or `Infinity`;
      any other text makes decimal.js throw. */
  function ReadDecimal(s: string): (r: Reading)
    ensures s == "" ==> r == Rejected
  {
    if |s| > 0 && s[0] == '-' then Negated(ReadUnsigned(s[1..]))
    else if |s| > 0 && s[0] == '+' then ReadUnsigned(s[1..])
    else ReadUnsigned(s)
  }

  lemma FindPointAt(s: string, p: nat)
    requires p <= |s|
    requires forall i :: 0 <= i < p ==> s[i] != '.'
    requires p < |s| ==> s[p] == '.'
    ensures FindPoint(s) == p
  {}

  lemma FindExponentAt(s: string, p: nat)
    requires p <= |s|
    requires forall i :: 0 <= i < p ==> !IsExponentMark(s[i])
    requires p < |s| ==> IsExponentMark(s[p])
    ensures FindExponent(s) == p
  {}

  predicate IsPlainChar(c: char) {
    IsDigit(c) || c == '.'
  }

  /** A text of digits and points has no exponent part. */
  lemma NoExponent(t: string)
    requires forall i :: 0 <= i < |t| ==> IsPlainChar(t[i])
    ensures ReadNumeral(t) == ReadMantissa(t)
  {
    FindExponentAt(t, |t|);
    assert t[..|t|] == t;
  }

  lemma MantissaInteger(ip: string)
    requires AllDigits(ip) && |ip| > 0
    ensures ReadMantissa(ip) == Some(DigitsValue(ip) as real)
  {
    FindPointAt(ip, |ip|);
    assert Unscale(DigitsValue(""), 0) == 0.0;
  }

  lemma MantissaFraction(ip: string, fp: string, v: real)
    requires AllDigits(ip) && |ip| > 0 && AllDigits(fp)
    requires v == DigitsValue(ip) as real + Unscale(DigitsValue(fp), |fp|)
    ensures ReadMantissa(ip + "." + fp) == Some(v)
  {
    var t := ip + "." + fp;
    PointAfter(ip, fp);
    assert t[..|ip|] == ip;
    assert t[|ip| + 1..] == fp;
    MantissaDigits(ip, fp, v);
  }

  /** The first point of digits, a point and more text is the one after the digits. */
  lemma PointAfter(ip: string, fp: string)
    requires AllDigits(ip)
    ensures FindPoint(ip + "." + fp) == |ip|
  {
    var t := ip + "." + fp;
    assert forall i :: 0 <= i < |ip| ==> t[i] == ip[i];
    assert t[|ip|] == '.';
    FindPointAt(t, |ip|);
  }

  lemma MantissaDigits(ip: string, fp: string, v: real)
    requires AllDigits(ip) && |ip| > 0 && AllDigits(fp)
    requires v == DigitsValue(ip) as real + Unscale(DigitsValue(fp), |fp|)
    ensures MantissaValue(ip, fp) == Some(v)
  {}

  /** The text of a / 10^j reads back as a / 10^j. */
  lemma UnsignedRoundTrip(a: nat, j: nat)
    ensures ReadUnsigned(UnsignedText(a, j)) == Value(Unscale(a, j))
  {
    if j == 0 {
      WholeRoundTrip(a, j);
    } else {
      FractionRoundTrip(a, j);
    }
  }

  lemma WholeRoundTrip(a: nat, j: nat)
    requires j == 0
    ensures ReadUnsigned(UnsignedText(a, j)) == Value(Unscale(a, j))
  {
    var ip := NatText(Quot(a, Pow10(j)));
    assert UnsignedText(a, j) == ip;
    WholeParts(a, j);
    MantissaWhole(ip, Unscale(a, j));
    PlainWhole(ip);
    PlainReads(ip, Unscale(a, j));
  }

  lemma WholeParts(a: nat, j: nat)
    requires j == 0
    ensures Unscale(a, j) == DigitsValue(NatText(Quot(a, Pow10(j)))) as real
  {
    assert Quot(a, Pow10(j)) == a;
  }

  lemma MantissaWhole(ip: string, v: real)
    requires AllDigits(ip) && |ip| > 0
    requires v == DigitsValue(ip) as real
    ensures ReadMantissa(ip) == Some(v)
  {
    MantissaInteger(ip);
  }

  lemma PlainWhole(ip: string)
    requires AllDigits(ip)
    ensures forall i :: 0 <= i < |ip| ==> IsPlainChar(ip[i])
  {}

  lemma FractionRoundTrip(a: nat, j: nat)
    requires j > 0
    ensures ReadUnsigned(UnsignedText(a, j)) == Value(Unscale(a, j))
  {
    var p := Pow10(j);
    var ip := NatText(Quot(a, p));
    var fp := PadDigits(Rem(a, p), j);
    assert UnsignedText(a, j) == ip + "." + fp;
    FractionParts(a, j);
    ReadFraction(ip, fp, Unscale(a, j));
  }

  lemma FractionParts(a: nat, j: nat)
    ensures Unscale(a, j)
         == DigitsValue(NatText(Quot(a, Pow10(j)))) as real
            + Unscale(DigitsValue(PadDigits(Rem(a, Pow10(j)), j)), |PadDigits(Rem(a, Pow10(j)), j)|)
  {
    QuotRemUnscaled(a, j);
  }

  /** Digits, a point and digits read as their value v. */
  lemma ReadFraction(ip: string, fp: string, v: real)
    requires AllDigits(ip) && |ip| > 0 && AllDigits(fp)
    requires v == DigitsValue(ip) as real + Unscale(DigitsValue(fp), |fp|)
    ensures ReadUnsigned(ip + "." + fp) == Value(v)
  {
    MantissaFraction(ip, fp, v);
    PlainFraction(ip, fp);
    PlainReads(ip + "." + fp, v);
  }

  /** A literal without exponent reads as its mantissa. */
  lemma PlainReads(t: string, v: real)
    requires forall i :: 0 <= i < |t| ==> IsPlainChar(t[i])
    requires ReadMantissa(t) == Some(v)
    ensures ReadUnsigned(t) == Value(v)
  {
    NoExponent(t);
  }

  lemma PlainFraction(ip: string, fp: string)
    requires AllDigits(ip) && AllDigits(fp)
    ensures forall i :: 0 <= i < |ip + "." + fp| ==> IsPlainChar((ip + "." + fp)[i])
  {
    var t := ip + "." + fp;
    assert forall i :: 0 <= i < |ip| ==> t[i] == ip[i];
    assert forall i :: |ip| < i < |t| ==> t[i] == fp[i - |ip| - 1];
  }

  /** a / 10^j split into its integer part and its fraction. */
  lemma QuotRemUnscaled(a: nat, j: nat)
    ensures Unscale(a, j) == Quot(a, Pow10(j)) as real + Unscale(Rem(a, Pow10(j)), j)
  {
    var p := Pow10(j);
    QuotRem(a, p);
    UnscaleSplit(Quot(a, p), Rem(a, p), j);
  }

  lemma DigitsRoundTrip(m: int, j: nat)
    ensures ReadDecimal(DigitsText(m, j)) == Value(Unscale(m, j))
  {
    if m < 0 {
      NegativeRoundTrip(m, j);
    } else {
      var body := UnsignedText(m, j);
      UnsignedRoundTrip(m, j);
      assert IsDigit(body[0]);
      assert ReadDecimal(body) == ReadUnsigned(body);
    }
  }

  lemma NegativeRoundTrip(m: int, j: nat)
    requires m < 0
    ensures ReadDecimal(DigitsText(m, j)) == Value(Unscale(m, j))
  {
    var a := Magnitude(m);
    UnsignedRoundTrip(a, j);
    UnscaleNegated(m, j);
    assert DigitsText(m, j) == "-" + UnsignedText(a, j);
    SignedReads(UnsignedText(a, j), Unscale(a, j), Unscale(m, j));
  }

  lemma UnscaleNegated(m: int, j: nat)
    requires m < 0
    ensures Unscale(m, j) == -Unscale(Magnitude(m), j)
  {
    UnscaleNeg(Magnitude(m), j);
    assert -(Magnitude(m) as int) == m;
  }

  /** A minus sign before a literal negates what it reads as. */
  lemma SignedReads(body: string, u: real, w: real)
    requires ReadUnsigned(body) == Value(u) && w == -u
    ensures ReadDecimal("-" + body) == Value(w)
  {
    assert ("-" + body)[1..] == body;
  }

  /** Reading the text of an amount gives the amount back. */
  lemma {:induction false} FormatRoundTrip(x: real, k: nat)
    requires IsScaled(x, k)
    ensures ReadDecimal(Format(x, k)) == Value(x)
  {
    if k > 0 && IsScaled(x, k - 1) {
      FormatRoundTrip(x, k - 1);
    } else {
      ScaledRoundTrip(x, k);
    }
  }

  lemma ScaledRoundTrip(x: real, k: nat)
    requires IsScaled(x, k)
    ensures ReadDecimal(DigitsText(Scale(x, k).Floor, k)) == Value(x)
  {
    DigitsRoundTrip(Scale(x, k).Floor, k);
    UnscaleOfScaled(x, k);
  }

  /** The text of an amount is its digits with the fewest fractional
      places that still hold it. */
  lemma {:induction false} FormatShortest(x: real, k: nat)
    requires IsScaled(x, k)
    ensures Format(x, k) == DigitsText(Scale(x, Places(x, k)).Floor, Places(x, k))
  {
    if k > 0 && IsScaled(x, k - 1) {
      FormatShortest(x, k - 1);
    }
  }
}
