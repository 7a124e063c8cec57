/** Decimal rendering of integers, as JavaScript template literals and Rust
    `format!` produce it, together with the parsers that undo it. */
module Decimal {
  import opened Common

  predicate IsDigit(c: char) {
    '0' <= c <= '9'
  }

  predicate IsDigits(s: string) {
    forall i :: 0 <= i < |s| ==> IsDigit(s[i])
  }

  function DigitValue(c: char): (d: nat)
    requires IsDigit(c)
    ensures d < 10
  {
    (c as int) - ('0' as int)
  }

  function DigitChar(d: nat): (c: char)
    requires d < 10
    ensures IsDigit(c) && DigitValue(c) == d
  {
    (('0' as int) + d) as char
  }

  /** The shortest decimal numeral of `n`: never empty, only digits, and no
      leading zero unless the numeral is "0" itself. */
  function NatToString(n: nat): (s: string)
    ensures 1 <= |s| && IsDigits(s)
    ensures |s| > 1 ==> s[0] != '0'
    ensures s[0] == '0' ==> n == 0
    decreases n
  {
    if n < 10 then [DigitChar(n)] else NatToString(n / 10) + [DigitChar(n % 10)]
  }

  /** Value of a run of decimal digits, most significant first; leading zeros
      contribute nothing and the empty run is worth 0. */
  function DigitsValue(s: string): nat
    requires IsDigits(s)
  {
    if s == [] then 0 else 10 * DigitsValue(s[..|s| - 1]) + DigitValue(s[|s| - 1])
  }

  /** Reading back a rendered numeral gives the number that was rendered. */
  lemma {:induction false} NatToStringRoundTrip(n: nat)
    ensures DigitsValue(NatToString(n)) == n
  {
    if n >= 10 {
      var s := NatToString(n);
      assert s[..|s| - 1] == NatToString(n / 10);
      NatToStringRoundTrip(n / 10);
    }
  }

  /** A leading zero does not change the value of a numeral. */
  lemma {:induction false} LeadingZeroValue(s: string)
    requires IsDigits(s)
    ensures IsDigits("0" + s) && DigitsValue("0" + s) == DigitsValue(s)
  {
    var t := "0" + s;
    if s != [] {
      assert t[..|t| - 1] == "0" + s[..|s| - 1];
      LeadingZeroValue(s[..|s| - 1]);
    } else {
      assert t[..|t| - 1] == [];
    }
  }

  /** Two numbers render the same numeral only if they are equal. */
  lemma NatToStringInjective(m: nat, n: nat)
    requires NatToString(m) == NatToString(n)
    ensures m == n
  {
    NatToStringRoundTrip(m);
    NatToStringRoundTrip(n);
  }

  function Pow10(k: nat): (p: nat)
    ensures p >= 1
  {
    if k == 0 then 1 else 10 * Pow10(k - 1)
  }

  lemma {:induction false} Pow10Monotone(a: nat, b: nat)
    requires a <= b
    ensures Pow10(a) <= Pow10(b)
    decreases b - a
  {
    if a < b {
      Pow10Monotone(a + 1, b);
    }
  }

  /** The numeral of `n` is as long as the decimal magnitude of `n`: with
      `k` digits, `n` lies below 10^k and, past one digit, at or above
      10^(k-1). */
  lemma {:induction false} NatToStringLength(n: nat)
    ensures n < Pow10(|NatToString(n)|)
    ensures |NatToString(n)| > 1 ==> Pow10(|NatToString(n)| - 1) <= n
    decreases n
  {
    if n >= 10 {
      var t := NatToString(n / 10);
      NatToStringLength(n / 10);
      assert |NatToString(n)| == |t| + 1;
      if |t| == 1 {
        assert Pow10(1) == 10;
      }
    }
  }

  /** A numeral has exactly `k` digits when the number lies in the range of
      `k`-digit numbers. */
  lemma NatToStringLengthExactly(n: nat, k: nat)
    requires k >= 1
    ensures |NatToString(n)| == k <==> n < Pow10(k) && (k == 1 || Pow10(k - 1) <= n)
  {
    var s := NatToString(n);
    NatToStringLength(n);
    if |s| < k {
      Pow10Monotone(|s|, k - 1);
    } else if |s| > k {
      Pow10Monotone(k, |s| - 1);
    }
  }

  /** Parses a non-empty run of decimal digits. */
  function ParseNat(s: string): (r: Option<nat>)
    ensures r.Some? <==> s != [] && IsDigits(s)
  {
    if s != [] && IsDigits(s) then Some(DigitsValue(s)) else None
  }

  lemma ParseNatRoundTrip(n: nat)
    ensures ParseNat(NatToString(n)) == Some(n)
  {
    NatToStringRoundTrip(n);
  }

  /** The numeral of an integer as JavaScript's `String(n)` gives it for a
      safe integer: a minus sign in front of the magnitude when negative. */
  function IntToString(i: int): (s: string)
    ensures 1 <= |s|
    ensures s[0] == '-' <==> i < 0
    ensures i >= 0 ==> IsDigits(s)
  {
    if i < 0 then "-" + NatToString(-i) else NatToString(i)
  }

  /** Parses an optional minus sign followed by a non-empty run of digits. */
  function ParseInt(s: string): Option<int> {
    if |s| > 0 && s[0] == '-' then
      match ParseNat(s[1..])
      case Some(n) => Some(-(n as int))
      case None => None
    else
      match ParseNat(s)
      case Some(n) => Some(n)
      case None => None
  }

  lemma IntToStringRoundTrip(i: int)
    ensures ParseInt(IntToString(i)) == Some(i)
  {
    var s := IntToString(i);
    if i < 0 {
      var m: nat := -i;
      assert s == "-" + NatToString(m);
      assert s[1..] == NatToString(m);
      ParseNatRoundTrip(m);
      assert ParseNat(s[1..]) == Some(m);
    } else {
      assert s == NatToString(i);
      assert s[0] != '-';
      ParseNatRoundTrip(i);
    }
  }
}
