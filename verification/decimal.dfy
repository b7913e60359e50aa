/** Decimal text of integers: what Rust's `{}` and `{:04}` formats write and
    what `str::parse` reads back from ASCII digits. */
module Decimal {
  import opened Strings

  function Pow10(k: nat): (p: nat)
    ensures p >= 1
  {
    if k == 0 then 1 else 10 * Pow10(k - 1)
  }

  function DigitChar(d: nat): (c: char)
    requires d < 10
    ensures IsAsciiDigit(c) && c as int - '0' as int == d
  {
    ('0' as int + d) as char
  }

  function DigitValue(c: char): (d: nat)
    requires IsAsciiDigit(c)
    ensures d < 10 && DigitChar(d) == c
  {
    c as int - '0' as int
  }

  /** The shortest decimal text of `n`: no leading zero, "0" for zero. */
  function NatToText(n: nat): (r: string)
    ensures |r| >= 1 && AllAsciiDigits(r)
    ensures |r| > 1 ==> r[0] != '0'
    decreases n
  {
    if n < 10 then [DigitChar(n)] else NatToText(n / 10) + [DigitChar(n % 10)]
  }

  /** The value of a run of ASCII digits; leading zeros are allowed, as `parse` allows them. */
  function TextToNat(s: string): (n: nat)
    requires AllAsciiDigits(s)
    ensures n < Pow10(|s|)
  {
    if s == [] then 0 else TextToNat(s[..|s| - 1]) * 10 + DigitValue(s[|s| - 1])
  }

  /** `parse` reads back what `{}` wrote. */
  lemma {:induction false} NatTextRoundTrip(n: nat)
    ensures TextToNat(NatToText(n)) == n
    decreases n
  {
    if n >= 10 {
      NatTextRoundTrip(n / 10);
      var t := NatToText(n);
      assert t[..|t| - 1] == NatToText(n / 10);
    }
  }

  /** The shortest text has at most `k` digits exactly when `n < 10^k`. */
  lemma {:induction false} NatTextLength(n: nat, k: nat)
    requires k >= 1
    ensures |NatToText(n)| <= k <==> n < Pow10(k)
    decreases n
  {
    if n >= 10 && k > 1 {
      NatTextLength(n / 10, k - 1);
    } else if n >= 10 {
      assert |NatToText(n)| == |NatToText(n / 10)| + 1;
    } else {
      PowPositive(k);
    }
  }

  lemma PowPositive(k: nat)
    requires k > 0
    ensures Pow10(k) >= 10
  {
    if k > 1 { PowPositive(k - 1); }
  }

  /** Zeros in front do not change the value. */
  lemma {:induction false} LeadingZeros(z: string, t: string)
    requires AllAsciiDigits(t) && forall i :: 0 <= i < |z| ==> z[i] == '0'
    ensures AllAsciiDigits(z + t) && TextToNat(z + t) == TextToNat(t)
    decreases |t|
  {
    if t == [] {
      ZerosValue(z);
      assert z + t == z;
    } else {
      LeadingZeros(z, t[..|t| - 1]);
      assert (z + t)[..|z + t| - 1] == z + t[..|t| - 1];
    }
  }

  lemma {:induction false} ZerosValue(z: string)
    requires forall i :: 0 <= i < |z| ==> z[i] == '0'
    ensures AllAsciiDigits(z) && TextToNat(z) == 0
    decreases |z|
  {
    if z != [] {
      ZerosValue(z[..|z| - 1]);
    }
  }

  function Zeros(k: nat): (z: string)
    ensures |z| == k && forall i :: 0 <= i < k ==> z[i] == '0'
  {
    seq(k, i => '0')
  }

  /** `format!("{:04}", n)`: the decimal text, zero padded on the left to four digits. */
  function ZeroPad4(n: nat): (r: string)
    ensures AllAsciiDigits(r) && |r| >= 4
    ensures TextToNat(r) == n
    ensures n < 10000 ==> |r| == 4
    ensures n >= 10000 ==> r == NatToText(n)
  {
    var t := NatToText(n);
    NatTextRoundTrip(n);
    NatTextLength(n, 4);
    if |t| >= 4 then t
    else
      LeadingZeros(Zeros(4 - |t|), t);
      Zeros(4 - |t|) + t
  }

  /** `{}` of a signed integer: a minus sign, then the digits of the magnitude. */
  function IntToText(i: int): (r: string)
    ensures i >= 0 ==> AllAsciiDigits(r) && TextToNat(r) == i
    ensures i < 0 ==> |r| >= 2 && r[0] == '-' && AllAsciiDigits(r[1..]) && TextToNat(r[1..]) == -i
  {
    NatTextRoundTrip(if i < 0 then -i else i);
    if i < 0 then "-" + NatToText(-i) else NatToText(i)
  }
}
