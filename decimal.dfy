/** Decimal digit strings: `String(n)` for integers, `padStart(2, "0")`, and
    reading a run of digits back as a number. */
module Decimal {
  import opened Strings

  predicate IsDigit(c: char) {
    '0' <= c <= '9'
  }

  predicate AllDigits(s: string) {
    forall i :: 0 <= i < |s| ==> IsDigit(s[i])
  }

  function DigitChar(d: nat): (c: char)
    requires d < 10
    ensures IsDigit(c) && DigitVal(c) == d
  {
    ('0' as int + d) as char
  }

  function DigitVal(c: char): nat
    requires IsDigit(c)
  {
    c as int - '0' as int
  }

  function Pow10(k: nat): (p: nat)
    ensures p >= 1
  {
    if k == 0 then 1 else 10 * Pow10(k - 1)
  }

  /** The value of a digit string (the empty string reads as 0, as `Number("")`). */
  function DigitsValue(s: string): nat
    requires AllDigits(s)
  {
    if s == [] then 0 else 10 * DigitsValue(s[..|s| - 1]) + DigitVal(s[|s| - 1])
  }

  /** `String(n)` for a non-negative integer: no leading zeros. */
  function NatToString(n: nat): (s: string)
    ensures |s| >= 1 && AllDigits(s)
  {
    if n < 10 then [DigitChar(n)] else NatToString(n / 10) + [DigitChar(n % 10)]
  }

  /** `String(n)` for any integer. */
  function IntToString(n: int): string {
    if n < 0 then "-" + NatToString(-n) else NatToString(n)
  }

  /** `s.padStart(2, "0")`. */
  function PadStart2(s: string): (r: string)
    ensures |r| >= 2
  {
    if |s| >= 2 then s else if |s| == 1 then "0" + s else "00"
  }

  /** The last `n` decimal digits of `x`, zero-padded: the fixed-width form. */
  function Fixed(x: nat, n: nat): (s: string)
    ensures |s| == n && AllDigits(s)
  {
    if n == 0 then [] else Fixed(x / 10, n - 1) + [DigitChar(x % 10)]
  }

  /** Reading `String(n)` back gives `n`. */
  lemma {:induction false} NatToStringValue(n: nat)
    ensures DigitsValue(NatToString(n)) == n
    decreases n
  {
    if n >= 10 {
      NatToStringValue(n / 10);
      var s := NatToString(n);
      assert s[..|s| - 1] == NatToString(n / 10);
    }
  }

  /** `String` is injective on non-negative integers. */
  lemma NatToStringInjective(m: nat, n: nat)
    requires NatToString(m) == NatToString(n)
    ensures m == n
  {
    NatToStringValue(m);
    NatToStringValue(n);
  }

  /** A leading zero does not change the value of a digit string. */
  lemma {:induction false} LeadingZeroValue(s: string)
    requires AllDigits(s)
    ensures AllDigits("0" + s) && DigitsValue("0" + s) == DigitsValue(s)
    decreases |s|
  {
    if s != [] {
      var t := "0" + s;
      assert t[..|t| - 1] == "0" + s[..|s| - 1];
      LeadingZeroValue(s[..|s| - 1]);
    }
  }

  /** Padding to two digits does not change the value. */
  lemma PadStart2Value(s: string)
    requires |s| >= 1 && AllDigits(s)
    ensures AllDigits(PadStart2(s)) && DigitsValue(PadStart2(s)) == DigitsValue(s)
  {
    if |s| == 1 { LeadingZeroValue(s); }
  }

  /** Between 10^(k-1) and 10^k, `String(n)` is the k-digit fixed-width form. */
  lemma {:induction false} NatToStringFixed(n: nat, k: nat)
    requires 1 <= k && Pow10(k - 1) <= n < Pow10(k)
    ensures NatToString(n) == Fixed(n, k)
    decreases k
  {
    if k == 1 {
      assert Fixed(n, 1) == Fixed(n / 10, 0) + [DigitChar(n % 10)];
    } else {
      assert Pow10(k - 1) == 10 * Pow10(k - 2);
      assert n >= 10;
      assert Pow10(k - 2) <= n / 10 < Pow10(k - 1);
      NatToStringFixed(n / 10, k - 1);
    }
  }

  /** Fixed-width forms of numbers below 10^n compare as the numbers do. */
  lemma {:induction false} FixedOrder(x: nat, y: nat, n: nat)
    requires x < Pow10(n) && y < Pow10(n)
    ensures StrLess(Fixed(x, n), Fixed(y, n)) <==> x < y
    ensures Fixed(x, n) == Fixed(y, n) <==> x == y
    decreases n
  {
    if n > 0 {
      var x', y' := x / 10, y / 10;
      var a, b := Fixed(x', n - 1), Fixed(y', n - 1);
      var dx, dy := DigitChar(x % 10), DigitChar(y % 10);
      assert Fixed(x, n) == a + [dx] && Fixed(y, n) == b + [dy];
      assert Pow10(n) == 10 * Pow10(n - 1);
      FixedOrder(x', y', n - 1);
      StrLessConcat(a, [dx], b, [dy]);
      assert StrLess([dx], [dy]) <==> x % 10 < y % 10 by {
        assert [dx][1..] == [] && [dy][1..] == [];
        StrLessIrreflexive([]);
      }
      assert x == 10 * x' + x % 10 && y == 10 * y' + y % 10;
      if Fixed(x, n) == Fixed(y, n) {
        assert a == Fixed(x, n)[..n - 1] && b == Fixed(y, n)[..n - 1];
        assert dx == Fixed(x, n)[n - 1] && dy == Fixed(y, n)[n - 1];
      }
    }
  }
}
