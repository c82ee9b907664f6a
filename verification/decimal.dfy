/**
  Zero-padded decimal numerals, the building block of the `yyyy`, `MM` and
  `dd` fields of a formatted date: a field is the number's digits, padded on
  the left with '0' up to the field's minimum width and never truncated.
 */
module Decimal {

  predicate IsDigit(c: char) {
    '0' <= c <= '9'
  }

  predicate AllDigits(s: string) {
    forall i :: 0 <= i < |s| ==> IsDigit(s[i])
  }

  function DigitChar(d: nat): (c: char)
    requires d < 10
    ensures IsDigit(c) && c as int - '0' as int == d
  {
    ('0' as int + d) as char
  }

  function DigitValue(c: char): nat
    requires IsDigit(c)
  {
    c as int - '0' as int
  }

  function Pow10(k: nat): nat {
    if k == 0 then 1 else 10 * Pow10(k - 1)
  }

  /** The shortest decimal numeral of `n` (no leading zero, "0" for zero). */
  function NatToDigits(n: nat): (r: string)
    ensures |r| >= 1 && AllDigits(r)
    ensures |r| > 1 ==> r[0] != '0'
    decreases n
  {
    if n < 10 then [DigitChar(n)] else NatToDigits(n / 10) + [DigitChar(n % 10)]
  }

  /** The value of a numeral, most significant digit first. */
  function DigitsToNat(s: string): nat
    requires AllDigits(s)
  {
    if s == [] then 0 else 10 * DigitsToNat(s[..|s| - 1]) + DigitValue(s[|s| - 1])
  }

  function Zeros(k: nat): (r: string)
    ensures |r| == k && forall i :: 0 <= i < k ==> r[i] == '0'
  {
    seq(k, _ => '0')
  }

  function PadLeft(s: string, width: nat): string {
    if |s| < width then Zeros(width - |s|) + s else s
  }

  /** `n` written with at least `width` digits, as a date formatter's numeric field does. */
  function Pad(n: nat, width: nat): (r: string)
    ensures AllDigits(r) && |r| >= width
    ensures DigitsToNat(r) == n
    ensures |r| > width >= 1 ==> r[0] != '0'
  {
    var digits := NatToDigits(n);
    DigitsRoundTrip(n);
    if |digits| < width then
      LeadingZeros(width - |digits|, digits);
      Zeros(width - |digits|) + digits
    else
      digits
  }

  lemma {:induction false} DigitsRoundTrip(n: nat)
    ensures DigitsToNat(NatToDigits(n)) == n
    decreases n
  {
    if n >= 10 {
      var s := NatToDigits(n);
      assert s[..|s| - 1] == NatToDigits(n / 10);
      DigitsRoundTrip(n / 10);
    }
  }

  lemma {:induction false} LeadingZeros(k: nat, s: string)
    requires AllDigits(s)
    ensures AllDigits(Zeros(k) + s)
    ensures DigitsToNat(Zeros(k) + s) == DigitsToNat(s)
    decreases |s|
  {
    var z := Zeros(k) + s;
    if s == [] {
      assert z == Zeros(k);
      AllZeros(k);
    } else {
      assert z[..|z| - 1] == Zeros(k) + s[..|s| - 1];
      LeadingZeros(k, s[..|s| - 1]);
    }
  }

  lemma {:induction false} AllZeros(k: nat)
    ensures AllDigits(Zeros(k)) && DigitsToNat(Zeros(k)) == 0
  {
    if k > 0 {
      assert Zeros(k)[..k - 1] == Zeros(k - 1);
      AllZeros(k - 1);
    }
  }

  lemma {:induction false} ZeroValueMeansZeros(s: string)
    requires AllDigits(s) && DigitsToNat(s) == 0
    ensures s == Zeros(|s|)
  {
    if s != [] {
      var init := s[..|s| - 1];
      assert DigitsToNat(init) == 0 && DigitValue(s[|s| - 1]) == 0;
      ZeroValueMeansZeros(init);
      assert s == init + [s[|s| - 1]];
      assert Zeros(|s|) == Zeros(|init|) + ['0'];
    }
  }

  /** Every non-empty numeral is the canonical numeral of its value, padded to its own width. */
  lemma {:induction false} PaddedCanonical(s: string)
    requires AllDigits(s) && |s| >= 1
    ensures PadLeft(NatToDigits(DigitsToNat(s)), |s|) == s
    decreases |s|
  {
    var init := s[..|s| - 1];
    var last := s[|s| - 1];
    assert s == init + [last];
    var m := DigitsToNat(init);
    var n := DigitsToNat(s);
    if m == 0 {
      ZeroValueMeansZeros(init);
      assert NatToDigits(n) == [last];
    } else {
      assert n / 10 == m && n % 10 == DigitValue(last);
      assert NatToDigits(n) == NatToDigits(m) + [last];
      PaddedCanonical(init);
      var d := NatToDigits(m);
      assert |PadLeft(d, |init|)| >= |d|;
      assert PadLeft(d + [last], |s|) == PadLeft(d, |init|) + [last];
    }
  }

  /** A numeral of at least `width` digits, with no leading zero beyond that width, is exactly what `Pad` writes for its value. */
  lemma PadOfValue(s: string, width: nat)
    requires AllDigits(s) && |s| >= width && |s| >= 1
    requires |s| > width ==> s[0] != '0'
    ensures Pad(DigitsToNat(s), width) == s
  {
    PaddedCanonical(s);
  }

  lemma {:induction false} DigitsLength(n: nat, k: nat)
    requires 1 <= k && n < Pow10(k)
    ensures |NatToDigits(n)| <= k
    decreases k
  {
    if n >= 10 {
      assert k >= 2;
      assert n / 10 < Pow10(k - 1);
      DigitsLength(n / 10, k - 1);
    }
  }

  /** A numeral of `k` digits denotes a value below 10^k. */
  lemma {:induction false} ValueBound(s: string)
    requires AllDigits(s)
    ensures DigitsToNat(s) < Pow10(|s|)
  {
    if s != [] {
      ValueBound(s[..|s| - 1]);
    }
  }
}
