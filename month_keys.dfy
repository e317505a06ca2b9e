/** Month keys ("YYYY-MM") and month navigation: `monthKey`, the `prevKey`
    computation, `prevMonth`/`nextMonth`, and the `split("-")` parse the
    history rows use to recover a year and a month from a key. */
module MonthKeys {
  import opened Wrappers
  import opened Strings
  import opened Decimal

  /** `monthKey(y, m)`: year, a dash, and the one-based month padded to two
      digits; `m` is the zero-based month index. */
  function MonthKey(y: int, m: nat): string {
    IntToString(y) + "-" + PadStart2(NatToString(m + 1))
  }

  /** `Number(s)` on the pieces of a key: a run of digits reads as its value
      (the empty string as 0). Other strings are outside this model (JavaScript
      also reads forms such as " 3", "0x10" or "1e3"); here they are `None`. */
  function Number(s: string): (r: Option<int>)
    ensures r.Some? ==> r.value >= 0
  {
    if AllDigits(s) then Some(DigitsValue(s)) else None
  }

  /** `const [yr, mo] = k.split("-").map(Number); const mIdx = mo - 1;`
      `None` when either piece is NaN or missing. */
  function ParseKey(k: string): Option<(int, int)> {
    var parts := Split(k, '-');
    if |parts| < 2 then None
    else
      match (Number(parts[0]), Number(parts[1]))
      case (Some(yr), Some(mo)) => Some((yr, mo - 1))
      case _ => None
  }

  /** For a non-negative year, parsing a key gives back its year and
      zero-based month. */
  lemma KeyRoundTrip(y: nat, m: nat)
    ensures ParseKey(MonthKey(y, m)) == Some((y, m))
  {
    var ys, ms := NatToString(y), PadStart2(NatToString(m + 1));
    PadStart2Value(NatToString(m + 1));
    assert MonthKey(y, m) == ys + ['-'] + ms;
    assert '-' !in ys by { assert forall i :: 0 <= i < |ys| ==> IsDigit(ys[i]); }
    assert '-' !in ms by { assert forall i :: 0 <= i < |ms| ==> IsDigit(ms[i]); }
    SplitFirst(ys, '-', ms);
    SplitNone(ms, '-');
    NatToStringValue(y);
    NatToStringValue(m + 1);
  }

  /** The month part of a key is the fixed two-digit form of `m + 1`. */
  lemma MonthPartFixed(m: nat)
    requires m + 1 < 100
    ensures PadStart2(NatToString(m + 1)) == Fixed(m + 1, 2)
  {
    assert Pow10(1) == 10 && Pow10(2) == 100;
    if m + 1 < 10 {
      assert Fixed(m + 1, 2) == Fixed(0, 1) + [DigitChar(m + 1)];
      assert Fixed(0, 1) == "0";
    } else {
      NatToStringFixed(m + 1, 2);
    }
  }

  /** A key with a four-digit year is that year's four digits, a dash and the
      month's two digits. */
  lemma KeyAsFixed(y: int, m: nat)
    requires 1000 <= y <= 9999 && m < 12
    ensures MonthKey(y, m) == Fixed(y, 4) + ("-" + Fixed(m + 1, 2))
  {
    assert Pow10(3) == 1000 && Pow10(4) == 10000;
    NatToStringFixed(y, 4);
    MonthPartFixed(m);
  }

  /** The month halves of two keys compare as the months do. */
  lemma MonthPartOrder(m1: nat, m2: nat)
    requires m1 < 12 && m2 < 12
    ensures StrLess("-" + Fixed(m1 + 1, 2), "-" + Fixed(m2 + 1, 2)) <==> m1 < m2
    ensures "-" + Fixed(m1 + 1, 2) == "-" + Fixed(m2 + 1, 2) <==> m1 == m2
  {
    var c, d := "-" + Fixed(m1 + 1, 2), "-" + Fixed(m2 + 1, 2);
    assert Pow10(2) == 100;
    FixedOrder(m1 + 1, m2 + 1, 2);
    assert c[0] == d[0] && c[1..] == Fixed(m1 + 1, 2) && d[1..] == Fixed(m2 + 1, 2);
    assert StrLess(c, d) == StrLess(c[1..], d[1..]);
  }

  /** For four-digit years the keys of two months compare, as strings, in
      calendar order; this is what the plain `sort()` of the keys relies on. */
  lemma KeyOrder(y1: int, m1: nat, y2: int, m2: nat)
    requires 1000 <= y1 <= 9999 && 1000 <= y2 <= 9999 && m1 < 12 && m2 < 12
    ensures StrLess(MonthKey(y1, m1), MonthKey(y2, m2)) <==> y1 < y2 || (y1 == y2 && m1 < m2)
    ensures MonthKey(y1, m1) == MonthKey(y2, m2) <==> y1 == y2 && m1 == m2
  {
    var a, b := Fixed(y1, 4), Fixed(y2, 4);
    var c, d := "-" + Fixed(m1 + 1, 2), "-" + Fixed(m2 + 1, 2);
    KeyAsFixed(y1, m1);
    KeyAsFixed(y2, m2);
    assert Pow10(4) == 10000;
    FixedOrder(y1, y2, 4);
    MonthPartOrder(m1, m2);
    StrLessConcat(a, c, b, d);
    if a + c == b + d {
      assert a == (a + c)[..4] && b == (b + d)[..4];
      assert c == (a + c)[4..] && d == (b + d)[4..];
    }
  }

  /** `prevMonth` (and the `prevKey` computation): January steps back to
      December of the year before. */
  function PrevMonthOf(y: int, m: nat): (r: (int, nat))
    requires m < 12
    ensures r.1 < 12
  {
    if m == 0 then (y - 1, 11) else (y, m - 1)
  }

  /** `nextMonth`: December steps on to January of the year after. */
  function NextMonthOf(y: int, m: nat): (r: (int, nat))
    requires m < 12
    ensures r.1 < 12
  {
    if m == 11 then (y + 1, 0) else (y, m + 1)
  }

  /** Stepping back and then forward (or forward and then back) returns to
      the same month. */
  lemma NavigationInverse(y: int, m: nat)
    requires m < 12
    ensures NextMonthOf(PrevMonthOf(y, m).0, PrevMonthOf(y, m).1) == (y, m)
    ensures PrevMonthOf(NextMonthOf(y, m).0, NextMonthOf(y, m).1) == (y, m)
  {
  }

  /** Within four-digit years, the previous month's key is the greatest key
      below the current one: no month key lies strictly between them. */
  lemma PrevKeyIsPredecessor(y: int, m: nat)
    requires 1001 <= y <= 9999 && m < 12
    ensures var (py, pm) := PrevMonthOf(y, m);
      StrLess(MonthKey(py, pm), MonthKey(y, m))
      && forall y', m': nat :: 1000 <= y' <= 9999 && m' < 12 ==>
           !(StrLess(MonthKey(py, pm), MonthKey(y', m')) && StrLess(MonthKey(y', m'), MonthKey(y, m)))
  {
    var (py, pm) := PrevMonthOf(y, m);
    KeyOrder(py, pm, y, m);
    forall y', m': nat | 1000 <= y' <= 9999 && m' < 12
      ensures !(StrLess(MonthKey(py, pm), MonthKey(y', m')) && StrLess(MonthKey(y', m'), MonthKey(y, m)))
    {
      KeyOrder(py, pm, y', m');
      KeyOrder(y', m', y, m);
    }
  }
}
