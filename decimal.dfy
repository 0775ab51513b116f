/** Decimal digit strings: the conversions behind Python's `int(s)` on
    canonical digit strings and behind the `{:04d}` format specifier. */
module Decimal {
  import opened Base

  predicate IsDigit(c: char) {
    '0' <= c <= '9'
  }

  predicate AllDigits(s: string) {
    forall k :: 0 <= k < |s| ==> IsDigit(s[k])
  }

  function DigitChar(d: nat): (c: char)
    requires d < 10
    ensures IsDigit(c)
  {
    "0123456789"[d]
  }

  function DigitValue(c: char): (d: nat)
    requires IsDigit(c)
    ensures d < 10
  {
    c as int - '0' as int
  }

  /** The value of a string of decimal digits, most significant first;
      leading zeros are allowed, the empty string has value 0. */
  function Value(s: string): nat
    requires AllDigits(s)
  {
    if s == [] then 0 else Value(s[..|s| - 1]) * 10 + DigitValue(s[|s| - 1])
  }

  /** The shortest decimal representation of `n` (Python's `str(n)`). */
  function Digits(n: nat): (s: string)
    ensures AllDigits(s) && |s| >= 1
    ensures |s| > 1 ==> s[0] != '0'
  {
    if n < 10 then [DigitChar(n)] else Digits(n / 10) + [DigitChar(n % 10)]
  }

  lemma {:induction false} ValueOfDigits(n: nat)
    ensures Value(Digits(n)) == n
  {
    if n >= 10 {
      var s := Digits(n);
      assert s[..|s| - 1] == Digits(n / 10);
      ValueOfDigits(n / 10);
    }
  }

  function Pow10(d: nat): (p: nat)
    ensures p >= 1
  {
    if d == 0 then 1 else 10 * Pow10(d - 1)
  }

  /** `Digits(n)` has at most `d` characters exactly when `n < 10^d`. */
  lemma {:induction false} DigitsLength(n: nat, d: nat)
    requires d >= 1
    ensures |Digits(n)| <= d <==> n < Pow10(d)
  {
    if n >= 10 {
      if d == 1 {
        assert Pow10(1) == 10;
        assert |Digits(n)| >= 2;
      } else {
        DigitsLength(n / 10, d - 1);
      }
    }
  }

  function Zeros(k: nat): (s: string)
    ensures |s| == k && AllDigits(s)
    ensures forall i :: 0 <= i < k ==> s[i] == '0'
  {
    seq(k, _ => '0')
  }

  /** Leading zeros do not change a digit string's value. */
  lemma {:induction false} ValueLeadingZeros(k: nat, s: string)
    requires AllDigits(s)
    ensures AllDigits(Zeros(k) + s) && Value(Zeros(k) + s) == Value(s)
  {
    if s == [] {
      assert Zeros(k) + s == Zeros(k);
      ZerosValue(k);
    } else {
      var t := Zeros(k) + s;
      assert t[..|t| - 1] == Zeros(k) + s[..|s| - 1];
      ValueLeadingZeros(k, s[..|s| - 1]);
    }
  }

  lemma {:induction false} ZerosValue(k: nat)
    ensures Value(Zeros(k)) == 0
  {
    if k > 0 {
      assert Zeros(k)[..k - 1] == Zeros(k - 1);
      ZerosValue(k - 1);
    }
  }

  /** Python's `format(n, '0<width>d')` for a non-negative `n`: the decimal
      digits of `n`, left-padded with zeros to at least `width` characters. */
  function ZeroPad(n: nat, width: nat): (s: string)
    ensures AllDigits(s) && |s| >= width
  {
    var d := Digits(n);
    if |d| < width then Zeros(width - |d|) + d else d
  }

  /** Padding loses nothing: the padded string reads back as `n`, and its
      length is `width` exactly when `n` has at most `width` digits. */
  lemma ZeroPadRoundTrip(n: nat, width: nat)
    requires width >= 1
    ensures Value(ZeroPad(n, width)) == n
    ensures |ZeroPad(n, width)| == width <==> n < Pow10(width)
    ensures |ZeroPad(n, width)| >= width
  {
    var d := Digits(n);
    ValueOfDigits(n);
    DigitsLength(n, width);
    if |d| < width {
      ValueLeadingZeros(width - |d|, d);
    }
  }

  /** Python's `int(s)` restricted to canonical input: a non-empty string of
      ASCII digits. Anything else is refused. */
  function ParseNat(s: string): (r: Option<nat>)
    ensures r.Some? <==> s != [] && AllDigits(s)
    ensures r.Some? ==> r.value == Value(s)
  {
    if s != [] && AllDigits(s) then Some(Value(s)) else None
  }

  lemma ParseDigits(n: nat)
    ensures ParseNat(Digits(n)) == Some(n)
  {
    ValueOfDigits(n);
  }
}
