/**
  Decimal text and numbers. `ParseFloat` models the decimal form of Go's
  `strconv.ParseFloat` with exact `real` values; `FormatCents` and `RoundCents`
  model Go's `%.2f` verb on a non-negative value.
 */
module Decimal {
  import opened Wrappers

  predicate IsDigit(c: char) {
    '0' <= c <= '9'
  }

  predicate AllDigits(s: string) {
    forall i :: 0 <= i < |s| ==> IsDigit(s[i])
  }

  function DigitValue(c: char): (d: nat)
    requires IsDigit(c)
    ensures d < 10
  {
    c as int - '0' as int
  }

  function DigitChar(d: nat): (c: char)
    requires d < 10
    ensures IsDigit(c) && DigitValue(c) == d
  {
    ('0' as int + d) as char
  }

  function Pow10(n: nat): (p: nat)
    ensures p >= 1
  {
    if n == 0 then 1 else 10 * Pow10(n - 1)
  }

  /** Ten to an integer power, as a real. */
  function Scale(e: int): (x: real)
    ensures x > 0.0
  {
    if e >= 0 then Pow10(e) as real else 1.0 / Pow10(-e) as real
  }

  /** The number a string of decimal digits denotes, most significant first. */
  function DigitsValue(s: string): (v: nat)
    requires AllDigits(s)
    ensures v < Pow10(|s|)
  {
    if |s| == 0 then 0
    else DigitsValue(s[..|s| - 1]) * 10 + DigitValue(s[|s| - 1])
  }

  /** Decimal digits of `n` without leading zeros (`"0"` for zero). */
  function DigitsOf(n: nat): (s: string)
    ensures |s| > 0 && AllDigits(s)
    ensures DigitsValue(s) == n
    ensures |s| == 1 || s[0] != '0'
  {
    if n < 10 then [DigitChar(n)]
    else
      var s := DigitsOf(n / 10) + [DigitChar(n % 10)];
      assert s[..|s| - 1] == DigitsOf(n / 10);
      s
  }

  /** Position of the first `c` in `s`, or `|s|` if there is none. */
  function IndexOf(s: string, c: char): (i: nat)
    ensures i <= |s|
    ensures forall k :: 0 <= k < i ==> s[k] != c
    ensures i < |s| ==> s[i] == c
  {
    if |s| == 0 then 0
    else if s[0] == c then 0
    else 1 + IndexOf(s[1..], c)
  }

  predicate IsExponentMark(c: char) {
    c == 'e' || c == 'E'
  }

  /** Position of the first exponent mark in `s`, or `|s|` if there is none. */
  function IndexOfExponent(s: string): (i: nat)
    ensures i <= |s|
    ensures forall k :: 0 <= k < i ==> !IsExponentMark(s[k])
    ensures i < |s| ==> IsExponentMark(s[i])
  {
    if |s| == 0 then 0
    else if IsExponentMark(s[0]) then 0
    else 1 + IndexOfExponent(s[1..])
  }

  /**
    The mantissa `digits [ '.' digits ]` with at least one digit on either side
    of the point, as Go's `readFloat` accepts it.
   */
  function ParseMantissa(s: string): (r: Option<real>)
    ensures r.Some? ==> r.value >= 0.0
  {
    var i := IndexOf(s, '.');
    var intPart := s[..i];
    var fracPart := if i < |s| then s[i + 1..] else "";
    if AllDigits(intPart) && AllDigits(fracPart) && |intPart| + |fracPart| > 0 then
      Some(MantissaValue(intPart, fracPart))
    else None
  }

  /** The value of `intPart.fracPart`. */
  function MantissaValue(intPart: string, fracPart: string): (v: real)
    requires AllDigits(intPart) && AllDigits(fracPart)
    ensures v >= DigitsValue(intPart) as real
  {
    DigitsValue(intPart) as real + DigitsValue(fracPart) as real / Pow10(|fracPart|) as real
  }

  /** The exponent `[ '+' | '-' ] digits`. */
  function ParseExponent(s: string): (r: Option<int>)
    ensures r.Some? ==> |s| > 0
  {
    if |s| > 0 && (s[0] == '+' || s[0] == '-') then
      if |s| > 1 && AllDigits(s[1..]) then
        Some(if s[0] == '-' then -(DigitsValue(s[1..]) as int) else DigitsValue(s[1..]))
      else None
    else if |s| > 0 && AllDigits(s) then Some(DigitsValue(s))
    else None
  }

  /**
    `strconv.ParseFloat(s, 64)` on its decimal syntax: an optional sign, a
    mantissa, and an optional exponent introduced by `e` or `E`. The value is
    the exact decimal value; `None` stands for a syntax error.
   */
  function ParseFloat(s: string): (r: Option<real>)
    ensures r.Some? ==> |s| > 0
  {
    var neg := |s| > 0 && s[0] == '-';
    var body := if |s| > 0 && (s[0] == '+' || s[0] == '-') then s[1..] else s;
    var e := IndexOfExponent(body);
    var mantissa := ParseMantissa(body[..e]);
    var exponent := if e < |body| then ParseExponent(body[e + 1..]) else Some(0);
    if mantissa.Some? && exponent.Some? then
      var v := mantissa.value * Scale(exponent.value);
      Some(if neg then -v else v)
    else None
  }

  /** A second point is a syntax error, as in Go: `1.2.3` does not parse. */
  lemma ParseFloatRejectsSecondPoint()
    ensures ParseFloat("1.2.3").None?
  {
    var s := "1.2.3";
    assert IndexOfExponent(s[4..]) == 1;
    assert IndexOfExponent(s) == 5;
    assert IndexOf(s[1..], '.') == 0;
    assert IndexOf(s, '.') == 1;
    assert s[2..][1] == '.';
  }

  /** Trailing letters are a syntax error: `12abc` does not parse. */
  lemma ParseFloatRejectsTrailingLetters()
    ensures ParseFloat("12abc").None?
  {
  }

  /** An exponent mark needs digits after it: `1e` does not parse. */
  lemma ParseFloatRejectsBareExponent()
    ensures ParseFloat("1e").None?
  {
  }

  /** A lone sign is a syntax error: `-` does not parse. */
  lemma ParseFloatRejectsLoneSign()
    ensures ParseFloat("-").None?
  {
  }

  predicate AllDigitsOrPoint(s: string) {
    forall i :: 0 <= i < |s| ==> IsDigit(s[i]) || s[i] == '.'
  }

  /** An accepted mantissa starts with a digit or the point. */
  lemma MantissaHead(s: string)
    requires ParseMantissa(s).Some?
    ensures |s| > 0 && (IsDigit(s[0]) || s[0] == '.')
  {
    var i := IndexOf(s, '.');
    if i > 0 {
      assert s[..i][0] == s[0];
    }
  }

  /** Accepted text starts with a digit, a sign or the point. */
  lemma ParseFloatHead(s: string)
    requires ParseFloat(s).Some?
    ensures IsDigit(s[0]) || s[0] in "+-."
  {
    var body := if s[0] == '+' || s[0] == '-' then s[1..] else s;
    var e := IndexOfExponent(body);
    MantissaHead(body[..e]);
    assert body[..e][0] == body[0];
  }

  /**
    Text starting with anything but a digit, a sign, a point, an exponent mark
    or the first letter of `inf` / `nan` is a syntax error.
   */
  lemma ParseFloatRejectsLetter(s: string)
    requires |s| > 0 && !IsDigit(s[0]) && s[0] !in "+-.eEiInN"
    ensures ParseFloat(s).None?
  {
    var e := IndexOfExponent(s);
    if e > 0 {
      var m := s[..e];
      assert m[0] == s[0];
      assert IndexOf(m, '.') > 0;
      assert m[..IndexOf(m, '.')][0] == s[0];
    }
  }

  /** Unsigned text without an exponent is read as a bare mantissa. */
  lemma ParseFloatPlain(s: string)
    requires |s| > 0 && IsDigit(s[0]) && AllDigitsOrPoint(s)
    ensures ParseFloat(s) == ParseMantissa(s)
  {
    assert IndexOfExponent(s) == |s|;
    assert s[..|s|] == s;
    assert Scale(0) == 1.0;
  }

  /** What the handler applies: the parsed value, or ParseFloat's zero result on a syntax error. */
  function ParseFloatOrZero(s: string): (v: real)
    ensures ParseFloat(s).None? ==> v == 0.0
    ensures ParseFloat(s).Some? ==> v == ParseFloat(s).value
  {
    match ParseFloat(s)
    case Some(x) => x
    case None => 0.0
  }

  /**
    `v` in hundredths, rounded to nearest with ties to even: the rounding Go's
    `%.2f` performs on the exact value it is given.
   */
  function RoundCents(v: real): (c: nat)
    requires v >= 0.0
    ensures -0.5 <= c as real - v * 100.0 <= 0.5
    ensures c as real - v * 100.0 == 0.5 || c as real - v * 100.0 == -0.5 ==> c % 2 == 0
  {
    var x := v * 100.0;
    var n := x.Floor;
    var f := x - n as real;
    if f < 0.5 then n
    else if f > 0.5 then n + 1
    else if n % 2 == 0 then n
    else n + 1
  }

  /** The value of `c` hundredths. */
  function Hundredths(c: nat): real {
    c as real / 100.0
  }

  /** `%.2f` of `c` hundredths: integer digits, a point, exactly two fraction digits. */
  function FormatCents(c: nat): (s: string)
    ensures |s| >= 4 && s[|s| - 3] == '.'
  {
    DigitsOf(c / 100) + "." + TwoDigitText(c % 100)
  }

  /** Two digits for a number below one hundred, with a leading zero when needed. */
  function TwoDigitText(n: nat): (s: string)
    requires n < 100
    ensures |s| == 2 && AllDigits(s)
    ensures DigitsValue(s) == n
  {
    var s := [DigitChar(n / 10), DigitChar(n % 10)];
    assert s[..1] == [DigitChar(n / 10)];
    assert s[..1][..0] == [];
    s
  }

  /** The first `c` after a `c`-free prefix is found right after that prefix. */
  lemma {:induction false} IndexOfAfter(q: string, c: char, rest: string)
    requires c !in q
    ensures IndexOf(q + [c] + rest, c) == |q|
  {
    var s := q + [c] + rest;
    if |q| > 0 {
      assert s[0] == q[0];
      assert s[1..] == q[1..] + [c] + rest;
      IndexOfAfter(q[1..], c, rest);
    }
  }

  /** A mantissa with a point splits at that point. */
  lemma ParseMantissaPoint(q: string, f: string)
    requires AllDigits(q) && AllDigits(f) && |q| > 0
    ensures ParseMantissa(q + "." + f) == Some(MantissaValue(q, f))
  {
    var s := q + "." + f;
    assert '.' !in q by {
      forall k | 0 <= k < |q| ensures q[k] != '.' {
        assert IsDigit(q[k]);
      }
    }
    IndexOfAfter(q, '.', f);
    assert s[..|q|] == q;
    assert s[|q| + 1..] == f;
  }

  /** Digits, a point and digits: the shape `%.2f` prints. */
  lemma PointNumberShape(q: string, f: string)
    requires |q| > 0 && |f| > 0 && AllDigits(q) && AllDigits(f)
    ensures var n := q + "." + f;
            IsDigit(n[0]) && IsDigit(n[|n| - 1]) && AllDigitsOrPoint(n)
  {
    var n := q + "." + f;
    assert n[0] == q[0];
    assert n[|n| - 1] == f[|f| - 1];
    forall i | 0 <= i < |n| ensures IsDigit(n[i]) || n[i] == '.' {
      if i < |q| {
        assert n[i] == q[i];
      } else if i > |q| {
        assert n[i] == f[i - |q| - 1];
      }
    }
  }

  /** `q.f` parses as the value it denotes. */
  lemma ParsePointNumber(q: string, f: string)
    requires |q| > 0 && |f| > 0 && AllDigits(q) && AllDigits(f)
    ensures ParseFloat(q + "." + f) == Some(MantissaValue(q, f))
  {
    PointNumberShape(q, f);
    ParseFloatPlain(q + "." + f);
    ParseMantissaPoint(q, f);
  }

  /** What `%.2f` prints: integer digits, a point, two digits; no sign, blank or delimiter. */
  lemma FormatCentsShape(c: nat)
    ensures IsDigit(FormatCents(c)[0]) && IsDigit(FormatCents(c)[|FormatCents(c)| - 1])
    ensures AllDigitsOrPoint(FormatCents(c))
  {
    PointNumberShape(DigitsOf(c / 100), TwoDigitText(c % 100));
  }

  /** Parsing what `%.2f` printed gives back the rounded value exactly. */
  lemma ParseFormatCents(c: nat)
    ensures ParseFloat(FormatCents(c)) == Some(Hundredths(c))
  {
    var q := DigitsOf(c / 100);
    var f := TwoDigitText(c % 100);
    assert FormatCents(c) == q + "." + f;
    ParsePointNumber(q, f);
    assert MantissaValue(q, f) == Hundredths(c) by {
      TwoPlaceValue(q, f);
      assert DigitsValue(q) == c / 100 && DigitsValue(f) == c % 100;
      CentsSplit(c);
    }
  }

  /** A mantissa with two fraction digits counts them in hundredths. */
  lemma TwoPlaceValue(q: string, f: string)
    requires AllDigits(q) && AllDigits(f) && |f| == 2
    ensures MantissaValue(q, f) == DigitsValue(q) as real + DigitsValue(f) as real / 100.0
  {
    assert Pow10(2) == 100;
  }

  /** Whole units and the remaining hundredths add up to the amount. */
  lemma CentsSplit(c: nat)
    ensures (c / 100) as real + (c % 100) as real / 100.0 == Hundredths(c)
  {
    assert c == 100 * (c / 100) + c % 100;
  }

  /** A value already written with two decimals survives rounding unchanged. */
  lemma RoundCentsExact(v: real, c: nat)
    requires v == Hundredths(c)
    ensures RoundCents(v) == c
  {
  }

  /** Values in [0, 50) round to at most 5000 hundredths. */
  lemma RoundCentsBound(v: real)
    requires 0.0 <= v < 50.0
    ensures RoundCents(v) <= 5000
  {
  }

  /** Rounding can reach the excluded upper end: 49.999 prints as `50.00`. */
  lemma RoundCentsReachesFifty()
    ensures RoundCents(49.999) == 5000
    ensures FormatCents(5000) == "50.00"
  {
  }
}
