/**
 * Decimal text in both directions: what C's printf prints for `%d`, `%lu` and `%02d`, and what
 * Python's int() and float() accept and return for the characters the gateway's regex groups admit.
 */
module Decimal {
  import opened Wrappers

  predicate IsDigit(c: char) {
    '0' <= c <= '9'
  }

  predicate AllDigits(s: string) {
    forall i | 0 <= i < |s| :: IsDigit(s[i])
  }

  function DigitChar(d: nat): (c: char)
    requires d < 10
    ensures IsDigit(c)
  {
    ('0' as int + d) as char
  }

  function DigitValue(c: char): (d: nat)
    requires IsDigit(c)
    ensures d < 10
  {
    c as int - '0' as int
  }

  function Pow10(k: nat): (r: nat)
    ensures r > 0
  {
    if k == 0 then 1 else 10 * Pow10(k - 1)
  }

  /** The value of a string of decimal digits, most significant digit first. */
  function DigitsValue(s: string): (v: nat)
    requires AllDigits(s)
    ensures v < Pow10(|s|)
  {
    if s == [] then 0 else 10 * DigitsValue(s[..|s| - 1]) + DigitValue(s[|s| - 1])
  }

  /** printf `%d` / `%lu` of a non-negative value: digits without sign or leading zeros. */
  function NatToString(n: nat): (s: string)
    ensures |s| > 0 && AllDigits(s)
    ensures s[0] == '0' ==> n == 0
    ensures DigitsValue(s) == n
    decreases n
  {
    if n < 10 then [DigitChar(n)]
    else
      var prefix := NatToString(n / 10);
      assert (prefix + [DigitChar(n % 10)])[..|prefix|] == prefix;
      prefix + [DigitChar(n % 10)]
  }

  /** printf `%d` of a signed value. */
  function IntToString(i: int): (s: string)
    ensures |s| > 0
    ensures s[0] == '-' <==> i < 0
  {
    if i < 0 then "-" + NatToString(-i) else NatToString(i)
  }

  /** printf `%02d`: padded with zeros to at least two characters, a sign counting toward the width. */
  function Pad2(i: int): (s: string)
    ensures |s| >= 2
    ensures 0 <= i < 100 ==> |s| == 2 && AllDigits(s) && DigitsValue(s) == i
    ensures s[0] == '-' <==> i < 0
  {
    var t := IntToString(i);
    assert 10 <= i < 100 ==> t == NatToString(i / 10) + [DigitChar(i % 10)];
    if |t| < 2 then "0" + t else t
  }

  /** The first position of `c` in `s`, or |s| when it does not occur. */
  function IndexOf(s: string, c: char): (k: nat)
    ensures k <= |s|
    ensures k < |s| ==> s[k] == c
    ensures forall j | 0 <= j < k :: s[j] != c
  {
    if s == [] then 0 else if s[0] == c then 0 else 1 + IndexOf(s[1..], c)
  }

  predicate IsSign(c: char) {
    c == '-' || c == '+'
  }

  /** Python's int() on a string of digits and signs: an optional sign, then at least one digit. */
  function PyInt(s: string): (r: Option<int>)
    ensures r.Some? ==> |s| > 0 && (r.value < 0 ==> s[0] == '-')
  {
    if |s| > 0 && IsSign(s[0]) then
      if |s| > 1 && AllDigits(s[1..]) then
        var v: int := DigitsValue(s[1..]);
        Some(if s[0] == '-' then -v else v)
      else None
    else if |s| > 0 && AllDigits(s) then Some(DigitsValue(s))
    else None
  }

  /** The exact value of `whole.frac`. */
  function FixedPointValue(whole: string, frac: string): real
    requires AllDigits(whole) && AllDigits(frac)
  {
    DigitsValue(whole) as real + DigitsValue(frac) as real / Pow10(|frac|) as real
  }

  /** Digits with at most one decimal point and at least one digit, read exactly. */
  function UnsignedDecimal(s: string): Option<real>
  {
    var k := IndexOf(s, '.');
    var whole := s[..k];
    var frac := if k < |s| then s[k + 1..] else [];
    if AllDigits(whole) && AllDigits(frac) && |whole| + |frac| > 0 then
      Some(FixedPointValue(whole, frac))
    else None
  }

  /**
   * Python's float() on a string of digits, signs and points: an optional sign, then digits with
   * at most one decimal point and at least one digit. The value is the exact decimal.
   */
  function PyFloat(s: string): (r: Option<real>)
    ensures r.Some? ==> |s| > 0 && (r.value < 0.0 ==> s[0] == '-')
  {
    if |s| > 0 && IsSign(s[0]) then
      match UnsignedDecimal(s[1..])
      case None => None
      case Some(x) => UnsignedDecimalNonNegative(s[1..]); Some(if s[0] == '-' then -x else x)
    else if UnsignedDecimal(s).Some? then UnsignedDecimalNonNegative(s); UnsignedDecimal(s)
    else None
  }

  /** int() reads back exactly what printf `%d` printed. */
  lemma PyIntOfIntToString(i: int)
    ensures PyInt(IntToString(i)) == Some(i)
  {
    var s := IntToString(i);
    if i < 0 {
      assert s[1..] == NatToString(-i);
    }
  }

  /** A string of digits is always accepted by int(), with its decimal value. */
  lemma PyIntOfDigits(s: string)
    requires |s| > 0 && AllDigits(s)
    ensures PyInt(s) == Some(DigitsValue(s))
  {
    assert IsDigit(s[0]);
  }

  /** A `-` anywhere but in front makes int() raise. */
  lemma PyIntRejectsInnerSign(s: string, k: nat)
    requires 0 < k < |s| && IsSign(s[k])
    ensures PyInt(s) == None
  {
    if |s| > 0 && IsSign(s[0]) {
      assert s[1..][k - 1] == s[k];
    }
  }

  /** float() of `w.f` is the fixed-point value it spells. */
  lemma PyFloatOfFixedPoint(w: string, f: string)
    requires AllDigits(w) && AllDigits(f) && |w| + |f| > 0
    ensures PyFloat(w + "." + f) == Some(FixedPointValue(w, f))
  {
    var s := w + "." + f;
    assert !IsSign(s[0]) by {
      if |w| > 0 { assert s[0] == w[0]; } else { assert s[0] == '.'; }
    }
    UnsignedDecimalOfFixedPoint(w, f);
  }

  lemma UnsignedDecimalOfFixedPoint(w: string, f: string)
    requires AllDigits(w) && AllDigits(f) && |w| + |f| > 0
    ensures UnsignedDecimal(w + "." + f) == Some(FixedPointValue(w, f))
  {
    var s := w + "." + f;
    IndexOfPastDigits(w, f);
    var k := IndexOf(s, '.');
    assert k == |w| < |s|;
    assert s[..k] == w;
    assert s[k + 1..] == f;
  }

  lemma IndexOfPastDigits(w: string, f: string)
    requires AllDigits(w)
    ensures IndexOf(w + "." + f, '.') == |w|
  {
    var s := w + "." + f;
    assert s[|w|] == '.';
    assert forall j | 0 <= j < |w| :: s[j] == w[j] && s[j] != '.';
  }

  /** Without a sign, float() never gives a negative number. */
  lemma UnsignedDecimalNonNegative(s: string)
    requires UnsignedDecimal(s).Some?
    ensures UnsignedDecimal(s).value >= 0.0
  {
    var k := IndexOf(s, '.');
    var whole := s[..k];
    var frac := if k < |s| then s[k + 1..] else [];
    FixedPointNonNegative(whole, frac);
  }

  lemma FixedPointNonNegative(whole: string, frac: string)
    requires AllDigits(whole) && AllDigits(frac)
    ensures FixedPointValue(whole, frac) >= 0.0
  {
    assert DigitsValue(frac) as real / Pow10(|frac|) as real >= 0.0;
  }

  /** Two decimal points make float() raise. */
  lemma PyFloatRejectsSecondPoint(s: string, i: nat, j: nat)
    requires i < j < |s| && s[i] == '.' && s[j] == '.'
    ensures PyFloat(s) == None
  {
    if |s| > 0 && IsSign(s[0]) {
      UnsignedDecimalRejectsSecondPoint(s[1..], i - 1, j - 1);
    } else {
      UnsignedDecimalRejectsSecondPoint(s, i, j);
    }
  }

  lemma UnsignedDecimalRejectsSecondPoint(s: string, i: int, j: nat)
    requires i < j < |s| && s[j] == '.' && (0 <= i ==> s[i] == '.')
    ensures 0 <= i ==> UnsignedDecimal(s) == None
  {
    if 0 <= i {
      var k := IndexOf(s, '.');
      assert k <= i;
      var frac := s[k + 1..];
      assert frac[j - k - 1] == '.';
    }
  }
}
