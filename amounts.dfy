/** Amounts typed into the inline editor: `parseVal` and the text the editor
    starts from (`value.toFixed(2).replace(".", ",")`). Amounts are exact
    reals here. */
module Amounts {
  import opened Wrappers
  import opened Seqs
  import opened Strings
  import opened Decimal

  /** The characters the regular expression `/[R$\s.]/g` matches. */
  predicate Stripped(c: char) {
    c == 'R' || c == '$' || c == '.' || IsSpace(c)
  }

  /** `.replace(/[R$\s.]/g, "")`: the currency sign, white space and the
      thousands separators go. */
  function Strip(s: string): (r: string)
    ensures |r| <= |s|
    ensures forall i :: 0 <= i < |r| ==> !Stripped(r[i])
    ensures forall c :: c in r <==> c in s && !Stripped(c)
  {
    if s == [] then []
    else if Stripped(s[0]) then Strip(s[1..])
    else [s[0]] + Strip(s[1..])
  }

  /** The characters `Strip` keeps. */
  predicate Kept(c: char) {
    !Stripped(c)
  }

  /** Stripping keeps every other character, in order and with its count:
      it is the filter of the kept characters. */
  lemma {:induction false} StripIsFilter(s: string)
    ensures Strip(s) == Filter(s, Kept)
    decreases |s|
  {
    if s != [] {
      StripIsFilter(s[1..]);
      FilterSingle(s[0], Kept);
      FilterConcat([s[0]], s[1..], Kept);
      assert [s[0]] + s[1..] == s;
      if Stripped(s[0]) {
        assert Strip(s) == [] + Strip(s[1..]);
      }
    }
  }

  /** The sanitising half of `parseVal`: strip, then turn the first comma
      (the decimal comma) into a point. */
  function Sanitize(s: string): string {
    ReplaceFirst(Strip(s), ',', '.')
  }

  /** The longest leading run of digits. */
  function DigitPrefix(s: string): (r: string)
    ensures |r| <= |s| && r == s[..|r|] && AllDigits(r)
    ensures |r| < |s| ==> !IsDigit(s[|r|])
  {
    if s != [] && IsDigit(s[0]) then [s[0]] + DigitPrefix(s[1..]) else []
  }

  /** The value of the decimal numeral `ip.fp`. */
  function DecimalValue(ip: string, fp: string): (v: real)
    requires AllDigits(ip) && AllDigits(fp)
    ensures v >= 0.0
  {
    DigitsValue(ip) as real + DigitsValue(fp) as real / Pow10(|fp|) as real
  }

  /** The magnitude part of `parseFloat`: digits, and optionally a point
      followed by digits, read from the front and ignoring whatever follows;
      `None` (NaN) when there is no digit at all. */
  function UnsignedPrefix(body: string): (r: Option<real>)
    ensures r.Some? ==> r.value >= 0.0
  {
    var ip := DigitPrefix(body);
    var rest := body[|ip|..];
    var fp := if |rest| > 0 && rest[0] == '.' then DigitPrefix(rest[1..]) else [];
    if |ip| + |fp| == 0 then None else Some(DecimalValue(ip, fp))
  }

  /** `parseFloat` on an already sanitised string: an optional sign in front
      of the magnitude. */
  function ParseDecimalPrefix(t: string): Option<real> {
    if |t| > 0 && (t[0] == '-' || t[0] == '+') then
      match UnsignedPrefix(t[1..])
      case Some(v) => Some(if t[0] == '-' then -v else v)
      case None => None
    else UnsignedPrefix(t)
  }

  /** `parseVal(s)`: sanitise, parse, and `|| 0` turns NaN into 0. */
  function ParseVal(s: string): real {
    match ParseDecimalPrefix(Sanitize(s))
    case Some(v) => v
    case None => 0.0
  }

  /** The editor's text for an amount of `c` cents:
      `(c / 100).toFixed(2).replace(".", ",")`. */
  function EditText(c: nat): string {
    NatToString(c / 100) + "," + PadStart2(NatToString(c % 100))
  }

  lemma {:induction false} ReplaceFirstCount(s: string)
    requires '.' !in s
    ensures Count(ReplaceFirst(s, ',', '.'), '.') == (if ',' in s then 1 else 0)
    ensures forall c :: c in ReplaceFirst(s, ',', '.') && c != '.' ==> c in s
    decreases |s|
  {
    if s != [] {
      if s[0] == ',' {
        CountZero(s[1..], '.');
        assert ReplaceFirst(s, ',', '.')[1..] == s[1..];
      } else {
        ReplaceFirstCount(s[1..]);
        assert ReplaceFirst(s, ',', '.')[1..] == ReplaceFirst(s[1..], ',', '.');
        assert s == [s[0]] + s[1..];
      }
    }
  }

  /** After sanitising, no currency sign or white space is left, and there is
      at most one point: exactly one when the input had a comma. */
  lemma SanitizeShape(s: string)
    ensures Count(Sanitize(s), '.') == (if ',' in s then 1 else 0)
    ensures forall c :: c in Sanitize(s) ==> c != 'R' && c != '$' && !IsSpace(c)
  {
    ReplaceFirstCount(Strip(s));
  }

  /** An input without a single digit parses to 0. */
  lemma NoDigitsParsesToZero(s: string)
    requires forall i :: 0 <= i < |s| ==> !IsDigit(s[i])
    ensures ParseVal(s) == 0.0
  {
    var t := Sanitize(s);
    ReplaceFirstCount(Strip(s));
    assert forall c :: c in t ==> !IsDigit(c) by {
      forall c | c in t ensures !IsDigit(c) {
        if c != '.' {
          var i :| 0 <= i < |s| && s[i] == c;
        }
      }
    }
    var body := if |t| > 0 && (t[0] == '-' || t[0] == '+') then t[1..] else t;
    assert |body| > 0 ==> body[0] in t;
    assert DigitPrefix(body) == [];
    var rest := body;
    if |rest| > 1 && rest[0] == '.' {
      assert rest[1] in t;
    }
  }

  /** Without a minus sign the parsed amount is never negative. */
  lemma NoMinusNonNegative(s: string)
    requires '-' !in s
    ensures ParseVal(s) >= 0.0
  {
    ReplaceFirstCount(Strip(s));
    var t := Sanitize(s);
    assert '-' !in t;
    if |t| > 0 { assert t[0] in t; }
  }

  lemma {:induction false} StripIdentity(s: string)
    requires forall i :: 0 <= i < |s| ==> !Stripped(s[i])
    ensures Strip(s) == s
    decreases |s|
  {
    if s != [] { StripIdentity(s[1..]); }
  }

  lemma {:induction false} ReplaceFirstAfterDigits(a: string, b: string)
    requires AllDigits(a)
    ensures ReplaceFirst(a + "," + b, ',', '.') == a + "." + b
    decreases |a|
  {
    if a == [] {
      assert a + "," + b == [','] + b;
    } else {
      var s := a + "," + b;
      assert s[0] == a[0] && s[0] != ',';
      assert s[1..] == a[1..] + "," + b;
      ReplaceFirstAfterDigits(a[1..], b);
      assert a + "." + b == [a[0]] + (a[1..] + "." + b);
    }
  }

  /** The leading digit run of `a + b` is `a` when `b` does not start with a
      digit. */
  lemma {:induction false} DigitPrefixOf(a: string, b: string)
    requires AllDigits(a)
    requires b == [] || !IsDigit(b[0])
    ensures DigitPrefix(a + b) == a
    decreases |a|
  {
    if a == [] {
      assert a + b == b;
    } else {
      var s := a + b;
      assert s[0] == a[0] && IsDigit(s[0]);
      assert s[1..] == a[1..] + b;
      DigitPrefixOf(a[1..], b);
      assert [a[0]] + a[1..] == a;
    }
  }

  /** The editor's text holds nothing `Strip` removes. */
  lemma NothingStripped(ip: string, fp: string)
    requires AllDigits(ip) && AllDigits(fp)
    ensures forall i :: 0 <= i < |ip + "," + fp| ==> !Stripped((ip + "," + fp)[i])
  {
    var text := ip + "," + fp;
    forall i | 0 <= i < |text| ensures !Stripped(text[i]) {
      if i < |ip| { assert text[i] == ip[i]; }
      else if i > |ip| { assert text[i] == fp[i - |ip| - 1]; }
    }
  }

  /** Sanitising the editor's text only turns the decimal comma into a point. */
  lemma SanitizeEditText(c: nat)
    ensures Sanitize(EditText(c)) == NatToString(c / 100) + "." + PadStart2(NatToString(c % 100))
  {
    var ip, fp := NatToString(c / 100), PadStart2(NatToString(c % 100));
    PadStart2Value(NatToString(c % 100));
    var text := EditText(c);
    assert text == ip + "," + fp;
    NothingStripped(ip, fp);
    StripIdentity(text);
    ReplaceFirstAfterDigits(ip, fp);
  }

  /** The magnitude of a plain `digits.digits` string is its decimal value. */
  lemma UnsignedPlainDecimal(ip: string, fp: string)
    requires |ip| >= 1 && AllDigits(ip) && AllDigits(fp)
    ensures UnsignedPrefix(ip + ("." + fp)) == Some(DecimalValue(ip, fp))
  {
    var tail := "." + fp;
    var body := ip + tail;
    DigitPrefixOf(ip, tail);
    assert body[|ip|..] == tail;
    assert tail[1..] == fp;
    DigitPrefixOf(fp, []);
    assert fp + [] == fp;
  }

  /** A string that starts with a digit has no sign to read. */
  lemma NoSign(t: string)
    requires |t| > 0 && IsDigit(t[0])
    ensures ParseDecimalPrefix(t) == UnsignedPrefix(t)
  {
  }

  /** A plain `digits.digits` string parses to its decimal value. */
  lemma ParsePlainDecimal(ip: string, fp: string)
    requires |ip| >= 1 && AllDigits(ip) && AllDigits(fp)
    ensures ParseDecimalPrefix(ip + "." + fp) == Some(DecimalValue(ip, fp))
  {
    var t := ip + ("." + fp);
    assert ip + "." + fp == t;
    assert t[0] == ip[0];
    NoSign(t);
    UnsignedPlainDecimal(ip, fp);
  }

  /** The editor's text parses to the decimal numeral it spells. */
  lemma EditTextParses(c: nat, ip: string, fp: string)
    requires ip == NatToString(c / 100) && fp == PadStart2(NatToString(c % 100))
    requires AllDigits(fp)
    ensures ParseVal(EditText(c)) == DecimalValue(ip, fp)
  {
    SanitizeEditText(c);
    ParsePlainDecimal(ip, fp);
  }

  /** The cents part of the editor's text always has two digits. */
  lemma CentsTwoDigits(c: nat)
    ensures |PadStart2(NatToString(c % 100))| == 2
  {
    if c % 100 >= 10 {
      assert Pow10(1) == 10 && Pow10(2) == 100;
      NatToStringFixed(c % 100, 2);
    }
  }

  /** The numeral the editor spells for `c` cents has the value `c / 100`. */
  lemma EditTextValue(c: nat, ip: string, fp: string)
    requires ip == NatToString(c / 100) && fp == PadStart2(NatToString(c % 100))
    requires AllDigits(fp)
    ensures DecimalValue(ip, fp) == c as real / 100.0
  {
    PadStart2Value(NatToString(c % 100));
    NatToStringValue(c / 100);
    NatToStringValue(c % 100);
    CentsTwoDigits(c);
    var q, r := c / 100, c % 100;
    assert Pow10(|fp|) == 100;
    assert DigitsValue(ip) == q && DigitsValue(fp) == r;
    assert c as real == 100.0 * q as real + r as real;
  }

  /** Committing the editor's unchanged text stores the same amount: for any
      whole number of cents, `parseVal` reads back exactly `c / 100`. */
  lemma EditTextRoundTrip(c: nat)
    ensures ParseVal(EditText(c)) == c as real / 100.0
  {
    var ip, fp := NatToString(c / 100), PadStart2(NatToString(c % 100));
    PadStart2Value(NatToString(c % 100));
    EditTextParses(c, ip, fp);
    EditTextValue(c, ip, fp);
  }
}
