/** Decimal numerals: reading them the way `int()` and `float()` do for the
    plain decimal forms, and writing them the way `str()` of an integer and
    the repr of a float rounded to four places do. */
module Decimal {
  import opened Wrappers
  import opened Text

  predicate AllDigits(s: string) { forall k :: 0 <= k < |s| ==> IsDigit(s[k]) }

  function DigitValue(c: char): (d: nat)
    requires IsDigit(c)
    ensures d < 10
  {
    c as nat - '0' as nat
  }

  function DigitChar(d: nat): (c: char)
    requires d < 10
    ensures IsDigit(c) && DigitValue(c) == d
  {
    ('0' as nat + d) as char
  }

  /** `abs()` of an integer. */
  function Abs(x: int): nat { if x < 0 then -x else x }

  function Pow10(n: nat): (r: nat)
    ensures r >= 1
  {
    if n == 0 then 1 else 10 * Pow10(n - 1)
  }

  lemma {:induction false} Pow10Add(a: nat, b: nat)
    ensures Pow10(a + b) == Pow10(a) * Pow10(b)
    decreases b
  {
    if b > 0 {
      Pow10Add(a, b - 1);
    }
  }

  /** `int(s)` of a string of decimal digits (leading zeros allowed). */
  function DigitsValue(s: string): nat
    requires AllDigits(s)
  {
    if s == [] then 0 else 10 * DigitsValue(s[..|s| - 1]) + DigitValue(s[|s| - 1])
  }

  /** `str(n)`: the decimal digits of `n`, with no leading zero. */
  function NatToString(n: nat): (r: string)
    ensures r != [] && AllDigits(r)
    ensures r[0] == '0' ==> n == 0
    ensures forall k :: 0 <= k < |r| ==> r[k] != '.' && !IsSpace(r[k])
  {
    if n < 10 then [DigitChar(n)] else NatToString(n / 10) + [DigitChar(n % 10)]
  }

  /** Reading back what `str(n)` writes gives `n`. */
  lemma {:induction false} NatToStringValue(n: nat)
    ensures DigitsValue(NatToString(n)) == n
  {
    if n >= 10 {
      var r := NatToString(n);
      assert r[..|r| - 1] == NatToString(n / 10);
      NatToStringValue(n / 10);
    }
  }

  /** The plain decimal numerals: digits with at most one dot and at least
      one digit. */
  predicate IsDecimalNumeral(s: string) {
    && (forall k :: 0 <= k < |s| ==> IsDigitOrDot(s[k]))
    && (forall i, j :: 0 <= i < j < |s| && s[i] == '.' ==> s[j] != '.')
    && (exists k :: 0 <= k < |s| && IsDigit(s[k]))
  }

  /** `float(s)` for a token of digits and dots: defined exactly for the
      decimal numerals; `float('.')` and `float('1.2.3')` raise, modelled as
      `None`. */
  function UnsignedDecimal(s: string): (r: Option<real>)
    ensures r.Some? ==> r.value >= 0.0
  {
    match IndexOf(s, '.')
    case None =>
      if s != [] && AllDigits(s) then Some(DigitsValue(s) as real) else None
    case Some(i) =>
      var whole, fraction := s[..i], s[i + 1..];
      if AllDigits(whole) && AllDigits(fraction) && |whole| + |fraction| >= 1 then
        Some(PointValue(whole, fraction))
      else
        None
  }

  /** The value of the numeral `whole.fraction`. */
  function PointValue(whole: string, fraction: string): (r: real)
    requires AllDigits(whole) && AllDigits(fraction)
    ensures r >= 0.0
  {
    DigitsValue(whole) as real + DigitsValue(fraction) as real / Pow10(|fraction|) as real
  }

  /** `float()` of an unsigned token succeeds exactly on the decimal
      numerals. */
  lemma UnsignedDecimalAccepts(s: string)
    ensures UnsignedDecimal(s).Some? <==> IsDecimalNumeral(s)
  {
    match IndexOf(s, '.')
    case None =>
    case Some(i) =>
      var fraction := s[i + 1..];
      assert forall k :: 0 <= k < |fraction| ==> fraction[k] == s[i + 1 + k];
  }

  /** `float(s)` for an optionally signed decimal numeral. */
  function ParseFloat(s: string): Option<real> {
    if s != [] && s[0] == '-' then
      match UnsignedDecimal(s[1..])
      case Some(v) => Some(-v)
      case None => None
    else if s != [] && s[0] == '+' then UnsignedDecimal(s[1..])
    else UnsignedDecimal(s)
  }

  /** `float()` accepts exactly the decimal numerals with an optional
      sign. */
  lemma ParseFloatAccepts(s: string)
    ensures ParseFloat(s).Some? <==> if s != [] && (s[0] == '-' || s[0] == '+') then IsDecimalNumeral(s[1..]) else IsDecimalNumeral(s)
  {
    UnsignedDecimalAccepts(s);
    if s != [] {
      UnsignedDecimalAccepts(s[1..]);
    }
  }

  /** Drops the zeros at the end of a digit string. */
  function DropTrailingZeros(s: string): (r: string)
    requires AllDigits(s)
    ensures |r| <= |s| && r == s[..|r|] && AllDigits(r)
    ensures r == [] || r[|r| - 1] != '0'
  {
    if s != [] && s[|s| - 1] == '0' then
      var init := s[..|s| - 1];
      var r := DropTrailingZeros(init);
      assert init[..|r|] == s[..|r|];
      r
    else
      s
  }

  lemma MulTen(v: nat, p: nat)
    ensures v * (10 * p) == 10 * (v * p)
  {
  }

  /** Dropping trailing zeros divides the value by a power of ten. */
  lemma {:induction false} DropTrailingZerosValue(s: string)
    requires AllDigits(s)
    ensures DigitsValue(DropTrailingZeros(s)) * Pow10(|s| - |DropTrailingZeros(s)|) == DigitsValue(s)
  {
    if s != [] && s[|s| - 1] == '0' {
      var init := s[..|s| - 1];
      var r := DropTrailingZeros(init);
      DropTrailingZerosValue(init);
      assert DigitsValue(s) == 10 * DigitsValue(init);
      assert Pow10(|s| - |r|) == 10 * Pow10(|init| - |r|);
      MulTen(DigitsValue(r), Pow10(|init| - |r|));
    }
  }

  lemma DigitsValueSnoc(s: string, c: char)
    requires AllDigits(s) && IsDigit(c)
    ensures AllDigits(s + [c]) && DigitsValue(s + [c]) == 10 * DigitsValue(s) + DigitValue(c)
  {
    assert (s + [c])[..|s|] == s;
  }

  /** The four digits of `f < 10000`, leading zeros kept. */
  function FourDigits(f: nat): (s: string)
    requires f < 10000
    ensures |s| == 4 && AllDigits(s) && DigitsValue(s) == f
  {
    var d1 := f / 10;
    var d2 := d1 / 10;
    var d3 := d2 / 10;
    assert f == 10 * d1 + f % 10 && d1 == 10 * d2 + d1 % 10 && d2 == 10 * d3 + d2 % 10;
    var s0: string := [];
    var s1 := s0 + [DigitChar(d3)];
    DigitsValueSnoc(s0, DigitChar(d3));
    var s2 := s1 + [DigitChar(d2 % 10)];
    DigitsValueSnoc(s1, DigitChar(d2 % 10));
    var s3 := s2 + [DigitChar(d1 % 10)];
    DigitsValueSnoc(s2, DigitChar(d1 % 10));
    var s4 := s3 + [DigitChar(f % 10)];
    DigitsValueSnoc(s3, DigitChar(f % 10));
    s4
  }

  lemma ScaledRatio(d: nat, p: nat, q: nat, f: nat)
    requires p >= 1 && q >= 1 && p * q == 10000 && d * q == f
    ensures d as real / p as real == f as real / 10000.0
  {
    assert (d * q) as real == d as real * q as real;
    assert (p * q) as real == p as real * q as real;
  }

  /** The fraction digits of `f / 10000` as the repr of a float rounded to
      four places prints them: up to four places, trailing zeros dropped, at
      least one digit. */
  function FractionDigits(f: nat): (r: string)
    requires f < 10000
    ensures r != [] && |r| <= 4 && AllDigits(r)
    ensures DigitsValue(r) as real / Pow10(|r|) as real == f as real / 10000.0
  {
    var padded := FourDigits(f);
    var t := DropTrailingZeros(padded);
    DropTrailingZerosValue(padded);
    Pow10Add(|t|, 4 - |t|);
    assert Pow10(4) == 10000;
    ScaledRatio(DigitsValue(t), Pow10(|t|), Pow10(4 - |t|), f);
    if t == [] then "0" else t
  }

  /** The repr of the non-negative float `a / 10000`: whole part, dot,
      fraction digits. */
  function UnsignedFourPlaces(a: nat): (r: string)
    ensures r != [] && r[0] != '-' && r[0] != '+'
    ensures forall i :: 0 <= i < |r| ==> IsDigitOrDot(r[i])
  {
    NatToString(a / 10000) + "." + FractionDigits(a % 10000)
  }

  /** The repr of the float `k / 10000`, i.e. of a value already rounded to
      four decimal places: a minus sign for a negative value, then the
      unsigned form. */
  function FormatFourPlaces(k: int): string {
    if k < 0 then "-" + UnsignedFourPlaces(Abs(k)) else UnsignedFourPlaces(Abs(k))
  }

  /** The repr holds digits, one dot and, for a negative value only, a
      leading minus sign. */
  lemma FormatFourPlacesChars(k: int)
    ensures FormatFourPlaces(k) != [] && forall i :: 0 <= i < |FormatFourPlaces(k)| ==> FormatFourPlaces(k)[i] == '-' || IsDigitOrDot(FormatFourPlaces(k)[i])
    ensures FormatFourPlaces(k)[0] == '-' <==> k < 0
    ensures forall i :: 0 < i < |FormatFourPlaces(k)| ==> FormatFourPlaces(k)[i] != '-'
  {
  }

  lemma UnsignedFourPlacesValue(a: nat)
    ensures UnsignedDecimal(UnsignedFourPlaces(a)) == Some(a as real / 10000.0)
  {
    var w, f := NatToString(a / 10000), FractionDigits(a % 10000);
    UnsignedDecimalOfParts(w, f);
    NatToStringValue(a / 10000);
    WholeAndFraction(a);
  }

  lemma IndexOfFirst(s: string, c: char, i: nat)
    requires i < |s| && s[i] == c
    requires forall k :: 0 <= k < i ==> s[k] != c
    ensures IndexOf(s, c) == Some(i)
  {
  }

  /** `float()` of digits, a dot and digits. */
  lemma UnsignedDecimalOfParts(w: string, f: string)
    requires AllDigits(w) && AllDigits(f) && f != []
    ensures UnsignedDecimal(w + "." + f) == Some(PointValue(w, f))
  {
    var s := w + "." + f;
    forall k | 0 <= k < |w| ensures s[k] != '.' {
      assert s[k] == w[k];
    }
    IndexOfFirst(s, '.', |w|);
    assert s[..|w|] == w;
    assert s[|w| + 1..] == f;
  }

  lemma WholeAndFraction(a: nat)
    ensures (a / 10000) as real + (a % 10000) as real / 10000.0 == a as real / 10000.0
  {
    assert a == 10000 * (a / 10000) + a % 10000;
  }

  lemma ParseNegative(u: string, x: real)
    requires UnsignedDecimal(u) == Some(x)
    ensures ParseFloat("-" + u) == Some(-x)
  {
    assert ("-" + u)[1..] == u;
  }

  lemma ParseUnsigned(u: string, x: real)
    requires u != [] && u[0] != '-' && u[0] != '+'
    requires UnsignedDecimal(u) == Some(x)
    ensures ParseFloat(u) == Some(x)
  {
  }

  /** `float()` reads back exactly the value whose four-place repr was written. */
  lemma FormatFourPlacesRoundTrip(k: int)
    ensures ParseFloat(FormatFourPlaces(k)) == Some(k as real / 10000.0)
  {
    var u, x := UnsignedFourPlaces(Abs(k)), Abs(k) as real / 10000.0;
    UnsignedFourPlacesValue(Abs(k));
    if k < 0 {
      ParseNegative(u, x);
      assert -x == k as real / 10000.0;
    } else {
      ParseUnsigned(u, x);
    }
  }
}
