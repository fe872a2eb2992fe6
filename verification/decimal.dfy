/**
 * Decimal digit strings: the pieces of JavaScript's number formatting and
 * parsing that the trading screens rely on (`n.toString()` for whole numbers,
 * `padStart(2, '0')`, `replace(/[^0-9]/g, '')` and `parseInt`).
 */
module Decimal {
  import opened Options

  predicate IsDigit(c: char) {
    '0' <= c <= '9'
  }

  predicate AllDigits(s: string) {
    forall i :: 0 <= i < |s| ==> IsDigit(s[i])
  }

  function DigitValue(c: char): (d: nat)
    requires IsDigit(c)
    ensures d < 10
  {
    c as int - '0' as int
  }

  function DigitChar(d: nat): (c: char)
    requires d < 10
    ensures IsDigit(c) && DigitValue(c) == d
  {
    (d + '0' as int) as char
  }

  /** `n.toString()` for a non-negative whole number: no sign, no leading zeros. */
  function NatToString(n: nat): (s: string)
    ensures AllDigits(s)
    ensures 1 <= |s|
    ensures n < 10 <==> |s| == 1
    ensures n < 100 <==> |s| <= 2
    ensures |s| > 1 ==> s[0] != '0'
    decreases n
  {
    if n < 10 then [DigitChar(n)] else NatToString(n / 10) + [DigitChar(n % 10)]
  }

  /** The value of a string of decimal digits, most significant first. */
  function ParseDigits(s: string): (n: nat)
    requires AllDigits(s)
  {
    if s == [] then 0 else ParseDigits(s[..|s| - 1]) * 10 + DigitValue(s[|s| - 1])
  }

  /** Parsing the printed form of a number gives the number back. */
  lemma {:induction false} ParsePrinted(n: nat)
    ensures ParseDigits(NatToString(n)) == n
    decreases n
  {
    var s := NatToString(n);
    if n >= 10 {
      ParsePrinted(n / 10);
      assert s[..|s| - 1] == NatToString(n / 10);
    }
  }

  /** Leading zeros do not change the value of a digit string. */
  lemma {:induction false} LeadingZeros(z: string, s: string)
    requires forall i :: 0 <= i < |z| ==> z[i] == '0'
    requires AllDigits(s)
    ensures AllDigits(z + s)
    ensures ParseDigits(z + s) == ParseDigits(s)
    decreases |s|
  {
    var zs := z + s;
    assert AllDigits(zs) by {
      forall i | 0 <= i < |zs| ensures IsDigit(zs[i]) {
        if i < |z| { assert zs[i] == z[i]; } else { assert zs[i] == s[i - |z|]; }
      }
    }
    if s == [] {
      assert zs == z;
      AllZeros(z);
    } else {
      var s' := s[..|s| - 1];
      assert zs[..|zs| - 1] == z + s';
      LeadingZeros(z, s');
    }
  }

  lemma {:induction false} AllZeros(z: string)
    requires forall i :: 0 <= i < |z| ==> z[i] == '0'
    ensures AllDigits(z) && ParseDigits(z) == 0
    decreases |z|
  {
    if z != [] {
      AllZeros(z[..|z| - 1]);
    }
  }

  /** `s.padStart(2, '0')`: left-pad with zeros to two characters. */
  function PadStart2(s: string): (r: string)
    ensures |s| < 2 ==> |r| == 2
    ensures |s| >= 2 ==> r == s
    ensures r == Zeros(|r| - |s|) + s
  {
    if |s| >= 2 then s else Zeros(2 - |s|) + s
  }

  /** `k` zero characters. */
  function Zeros(k: nat): (z: string)
    ensures |z| == k && forall i :: 0 <= i < k ==> z[i] == '0'
  {
    if k == 0 then [] else ['0'] + Zeros(k - 1)
  }

  /** `s.replace(/[^0-9]/g, '')`: the digits of `s`, in order. */
  function KeepDigits(s: string): (r: string)
    ensures AllDigits(r)
    ensures |r| <= |s|
    ensures r == [] <==> forall i :: 0 <= i < |s| ==> !IsDigit(s[i])
    ensures |s| == 1 ==> (r == s <==> IsDigit(s[0]))
    ensures |s| == 1 && !IsDigit(s[0]) ==> r == []
  {
    if s == [] then []
    else if IsDigit(s[0]) then [s[0]] + KeepDigits(s[1..])
    else KeepDigits(s[1..])
  }

  /** Removing the non-digits is idempotent and a digit string is left as it is. */
  lemma {:induction false} KeepDigitsOfDigits(s: string)
    requires AllDigits(s)
    ensures KeepDigits(s) == s
    decreases |s|
  {
    if s != [] {
      KeepDigitsOfDigits(s[1..]);
    }
  }

  /**
   * The filter works character by character: filtering a concatenation
   * concatenates the filtered parts, so together with the one-character
   * cases above the result is the digits of `s`, in order.
   */
  lemma {:induction false} KeepDigitsAppend(a: string, b: string)
    ensures KeepDigits(a + b) == KeepDigits(a) + KeepDigits(b)
    decreases |a|
  {
    if a == [] {
      assert a + b == b;
    } else {
      assert (a + b)[0] == a[0];
      assert (a + b)[1..] == a[1..] + b;
      KeepDigitsAppend(a[1..], b);
    }
  }

  /** A trailing non-digit is dropped. */
  lemma KeepDigitsSnoc(s: string, c: char)
    requires !IsDigit(c)
    ensures KeepDigits(s + [c]) == KeepDigits(s)
  {
    KeepDigitsAppend(s, [c]);
  }

  /** `parseInt` applied to a string that holds only digits: `NaN` (here `None`) when it is empty. */
  function ParseInt(digits: string): (r: Option<nat>)
    requires AllDigits(digits)
    ensures r.None? <==> digits == []
  {
    if digits == [] then None else Some(ParseDigits(digits))
  }

  /** `parseInt` reads a printed number back, also after any zero padding. */
  lemma ParseIntPrinted(n: nat, k: nat)
    ensures ParseInt(NatToString(n)) == Some(n)
    ensures AllDigits(Zeros(k) + NatToString(n)) && ParseInt(Zeros(k) + NatToString(n)) == Some(n)
  {
    ParsePrinted(n);
    LeadingZeros(Zeros(k), NatToString(n));
  }
}
