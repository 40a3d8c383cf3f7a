/**
 * Decimal text of non-negative integers, as Python writes it with `str(n)`,
 * the value of a string of decimal digits (the empty string is 0), and the
 * left zero-padding of `str.zfill`.
 */
module Decimal {

  predicate IsDigit(c: char) {
    '0' <= c <= '9'
  }

  predicate IsDigits(s: string) {
    forall i :: 0 <= i < |s| ==> IsDigit(s[i])
  }

  /** The text `str(n)` gives for some n >= 0: digits only, no leading zero except in "0". */
  predicate IsCanonical(s: string) {
    |s| >= 1 && IsDigits(s) && (s[0] == '0' ==> |s| == 1)
  }

  function DigitValue(c: char): (d: nat)
    requires IsDigit(c)
    ensures d < 10
  {
    c as int - '0' as int
  }

  function DigitChar(d: nat): (c: char)
    requires d < 10
    ensures IsDigit(c) && DigitValue(c) == d
  {
    ('0' as int + d) as char
  }

  function Pow10(k: nat): (p: nat)
    ensures p >= 1
  {
    if k == 0 then 1 else 10 * Pow10(k - 1)
  }

  /** Python's `str(n)` for n >= 0: the shortest decimal numeral of n. */
  function NatToStr(n: nat): (s: string)
    ensures IsCanonical(s)
    ensures s[0] == '0' <==> n == 0
    decreases n
  {
    if n < 10 then [DigitChar(n)] else NatToStr(n / 10) + [DigitChar(n % 10)]
  }

  /** The value of a string of decimal digits (leading zeros allowed; the empty string is 0). */
  function StrToNat(s: string): nat
    requires IsDigits(s)
  {
    if s == [] then 0 else StrToNat(s[..|s| - 1]) * 10 + DigitValue(s[|s| - 1])
  }

  /** Reading back what `str` wrote gives the number again. */
  lemma {:induction false} StrToNatOfNatToStr(n: nat)
    ensures StrToNat(NatToStr(n)) == n
    decreases n
  {
    if n >= 10 {
      var s := NatToStr(n);
      assert s[..|s| - 1] == NatToStr(n / 10);
      StrToNatOfNatToStr(n / 10);
    }
  }

  /** Writing back what was read gives the text again, when that text is canonical. */
  lemma {:induction false} NatToStrOfStrToNat(s: string)
    requires IsCanonical(s)
    ensures NatToStr(StrToNat(s)) == s
    decreases |s|
  {
    if |s| == 1 {
      assert s[..0] == [];
      assert DigitChar(DigitValue(s[0])) == s[0];
    } else {
      var p := s[..|s| - 1];
      var d := DigitValue(s[|s| - 1]);
      assert p[0] == s[0];
      NatToStrOfStrToNat(p);
      var m := StrToNat(p);
      assert m != 0;
      assert StrToNat(s) == m * 10 + d;
      assert (m * 10 + d) / 10 == m && (m * 10 + d) % 10 == d;
      assert DigitChar(DigitValue(s[|s| - 1])) == s[|s| - 1];
      assert s == p + [s[|s| - 1]];
    }
  }

  /** `str(n)` has at most k digits exactly when n < 10^k. */
  lemma {:induction false} NatToStrLength(n: nat, k: nat)
    requires k >= 1
    ensures |NatToStr(n)| <= k <==> n < Pow10(k)
    decreases n
  {
    if n >= 10 {
      if k == 1 {
        assert |NatToStr(n)| == |NatToStr(n / 10)| + 1;
      } else {
        NatToStrLength(n / 10, k - 1);
        assert n < Pow10(k) <==> n / 10 < Pow10(k - 1);
      }
    } else {
      assert Pow10(k) == 10 * Pow10(k - 1);
    }
  }

  function Zeros(k: nat): (z: string)
    ensures |z| == k && forall i :: 0 <= i < k ==> z[i] == '0'
  {
    seq(k, _ => '0')
  }

  /** Python's `s.zfill(width)` on a string without a sign: left-pad with '0' up to width. */
  function ZFill(s: string, width: nat): string {
    if |s| >= width then s else Zeros(width - |s|) + s
  }

  /** Leading zeros do not change the value `int` reads. */
  lemma {:induction false} StrToNatLeadingZeros(k: nat, s: string)
    requires IsDigits(s)
    ensures IsDigits(Zeros(k) + s)
    ensures StrToNat(Zeros(k) + s) == StrToNat(s)
    decreases |s|
  {
    var t := Zeros(k) + s;
    if s == [] {
      assert t == Zeros(k);
      ZerosValue(k);
    } else {
      assert t[..|t| - 1] == Zeros(k) + s[..|s| - 1];
      StrToNatLeadingZeros(k, s[..|s| - 1]);
    }
  }

  lemma {:induction false} ZerosValue(k: nat)
    ensures StrToNat(Zeros(k)) == 0
  {
    if k > 0 {
      assert Zeros(k)[..k - 1] == Zeros(k - 1);
      ZerosValue(k - 1);
    }
  }

  /**
   * Padding `str(n)` to `width` digits gives exactly `width` digits (when n
   * fits), or `str(n)` itself (when it does not), and keeps the value n.
   */
  lemma ZFillOfNatToStr(n: nat, width: nat)
    requires width >= 1
    ensures var t := ZFill(NatToStr(n), width);
      && IsDigits(t)
      && (n < Pow10(width) ==> |t| == width)
      && (n >= Pow10(width) ==> t == NatToStr(n))
      && StrToNat(t) == n
  {
    var s := NatToStr(n);
    NatToStrLength(n, width);
    StrToNatOfNatToStr(n);
    if |s| < width {
      StrToNatLeadingZeros(width - |s|, s);
    }
  }
}
