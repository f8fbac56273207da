/** The text of the entry form's quantity field: the `^\d*\.?\d*$` pattern that edits
    must match, `parseFloat` over such text, and the text `Number.prototype.toString`
    writes back for the values the +/- buttons produce. */
module Decimal {
  import opened Types

  predicate IsDigit(c: char) {
    '0' <= c <= '9'
  }

  predicate AllDigits(s: string) {
    forall i :: 0 <= i < |s| ==> IsDigit(s[i])
  }

  function DigitValue(c: char): nat
    requires IsDigit(c)
  {
    c as int - '0' as int
  }

  function DigitChar(n: nat): (c: char)
    requires n < 10
    ensures IsDigit(c) && DigitValue(c) == n
  {
    ('0' as int + n) as char
  }

  function Pow10(k: nat): (p: nat)
    ensures p >= 1
  {
    if k == 0 then 1 else 10 * Pow10(k - 1)
  }

  /** The number a string of decimal digits denotes (0 for the empty string). */
  function DigitsValue(s: string): nat
    requires AllDigits(s)
  {
    if s == [] then 0 else DigitsValue(s[..|s| - 1]) * 10 + DigitValue(s[|s| - 1])
  }

  lemma {:induction false} DigitsValueAppend(a: string, b: string)
    requires AllDigits(a) && AllDigits(b)
    ensures AllDigits(a + b)
    ensures DigitsValue(a + b) == DigitsValue(a) * Pow10(|b|) + DigitsValue(b)
    decreases |b|
  {
    if b == [] {
      assert a + b == a;
    } else {
      var b', c := b[..|b| - 1], b[|b| - 1];
      assert (a + b)[..|a + b| - 1] == a + b';
      DigitsValueAppend(a, b');
      ShiftDigit(DigitsValue(a), Pow10(|b'|), DigitsValue(b'), DigitValue(c));
    }
  }

  /** Appending one digit to x * p + y: the arithmetic step of DigitsValueAppend. */
  lemma ShiftDigit(x: nat, p: nat, y: nat, c: nat)
    ensures (x * p + y) * 10 + c == x * (10 * p) + (y * 10 + c)
  {
    assert x * (10 * p) == (x * p) * 10;
  }

  /** Length of the longest prefix of s made of digits. */
  function DigitRun(s: string): (n: nat)
    ensures n <= |s| && AllDigits(s[..n])
    ensures n < |s| ==> !IsDigit(s[n])
  {
    if s == [] || !IsDigit(s[0]) then 0 else 1 + DigitRun(s[1..])
  }

  /** `/^\d*\.?\d*$/.test(s)`: digits, then at most one '.', then digits. */
  predicate MatchesQuantityPattern(s: string) {
    var n := DigitRun(s);
    n == |s| || (s[n] == '.' && AllDigits(s[n + 1..]))
  }

  function CountDots(s: string): nat {
    if s == [] then 0 else (if s[0] == '.' then 1 else 0) + CountDots(s[1..])
  }

  predicate DigitsAndDots(s: string) {
    forall i :: 0 <= i < |s| ==> IsDigit(s[i]) || s[i] == '.'
  }

  lemma DigitsAndDotsCons(s: string)
    requires s != []
    ensures DigitsAndDots(s) <==> (IsDigit(s[0]) || s[0] == '.') && DigitsAndDots(s[1..])
  {
    if (IsDigit(s[0]) || s[0] == '.') && DigitsAndDots(s[1..]) {
      forall i | 0 <= i < |s| ensures IsDigit(s[i]) || s[i] == '.' {
        if i > 0 { assert s[i] == s[1..][i - 1]; }
      }
    }
  }

  lemma {:induction false} NoDotsAllDigits(s: string)
    requires DigitsAndDots(s)
    ensures CountDots(s) == 0 <==> AllDigits(s)
  {
    if s != [] {
      DigitsAndDotsCons(s);
      NoDotsAllDigits(s[1..]);
    }
  }

  /** The pattern accepts exactly the strings of digits and dots with at most one dot. */
  lemma {:induction false} PatternIsOneDotAtMost(s: string)
    ensures MatchesQuantityPattern(s) <==> DigitsAndDots(s) && CountDots(s) <= 1
  {
    if s == [] {
    } else if IsDigit(s[0]) {
      PatternIsOneDotAtMost(s[1..]);
      DigitsAndDotsCons(s);
      var n := DigitRun(s);
      assert n == 1 + DigitRun(s[1..]);
      if n < |s| {
        assert s[n] == s[1..][n - 1];
        assert s[n + 1..] == s[1..][n..];
      }
    } else if s[0] == '.' {
      DigitsAndDotsCons(s);
      if DigitsAndDots(s[1..]) {
        NoDotsAllDigits(s[1..]);
      }
    } else {
      DigitsAndDotsCons(s);
    }
  }

  /** A finite non-negative decimal: whole + frac / 10^scale, where frac is the number
      that the `scale` digits after the point denote. */
  datatype Dec = Dec(whole: nat, frac: nat, scale: nat)

  /** The fraction fits in its digits. */
  predicate WellFormed(d: Dec) {
    d.frac < Pow10(d.scale)
  }

  function Value(d: Dec): real {
    d.whole as real + d.frac as real / Pow10(d.scale) as real
  }

  lemma {:induction false} DigitsValueBound(s: string)
    requires AllDigits(s)
    ensures DigitsValue(s) < Pow10(|s|)
  {
    if s != [] {
      DigitsValueBound(s[..|s| - 1]);
    }
  }

  /** The digits after the '.' that `parseFloat` reads, when the digit run of s that ends
      at n is followed by a '.'. */
  function FractionDigits(s: string, n: nat): (f: string)
    requires n <= |s|
    ensures AllDigits(f)
  {
    if n < |s| && s[n] == '.' then s[n + 1..][..DigitRun(s[n + 1..])] else ""
  }

  /** `parseFloat` on text that starts with digits and at most one '.': the longest such
      prefix is read, and None stands for NaN when it holds no digit at all. */
  function ParseDecimal(s: string): (r: Option<Dec>)
    ensures r.Some? ==> WellFormed(r.value)
  {
    var n := DigitRun(s);
    var frac := FractionDigits(s, n);
    if n == 0 && frac == [] then None
    else
      DigitsValueBound(frac);
      Some(Dec(DigitsValue(s[..n]), DigitsValue(frac), |frac|))
  }

  function ParseFloat(s: string): Option<real> {
    match ParseDecimal(s)
    case None => None
    case Some(d) => Some(Value(d))
  }

  /** Text that matches the pattern parses to NaN exactly when it holds no digit. */
  lemma ParseNaN(s: string)
    requires MatchesQuantityPattern(s)
    ensures ParseDecimal(s).None? <==> s == "" || s == "."
  {
    var n := DigitRun(s);
    if n < |s| {
      assert DigitRun(s[n + 1..]) == |s[n + 1..]|;
    }
  }

  /** The decimal written without trailing zeros after the point, as `toString` does. */
  predicate IsNormal(d: Dec) {
    d.scale == 0 || d.frac % 10 != 0
  }

  lemma ValueScale(w: nat, q: nat, k: nat)
    ensures Value(Dec(w, 10 * q, k + 1)) == Value(Dec(w, q, k))
  {
    var p := Pow10(k) as real;
    assert Pow10(k + 1) as real == 10.0 * p;
    assert (10 * q) as real == 10.0 * q as real;
    assert (10.0 * q as real) / (10.0 * p) == q as real / p;
  }

  function Normalize(d: Dec): (r: Dec)
    requires WellFormed(d)
    ensures WellFormed(r) && IsNormal(r) && Value(r) == Value(d)
    decreases d.scale
  {
    if d.scale > 0 && d.frac % 10 == 0 then
      ValueScale(d.whole, d.frac / 10, d.scale - 1);
      Normalize(Dec(d.whole, d.frac / 10, d.scale - 1))
    else d
  }

  /** The digits of n, without leading zeros. */
  function NatToDigits(n: nat): (s: string)
    ensures |s| >= 1 && AllDigits(s) && DigitsValue(s) == n
    ensures s[0] == '0' ==> n == 0
    ensures n == 0 ==> s == "0"
  {
    if n < 10 then
      assert [DigitChar(n)][..0] == [];
      [DigitChar(n)]
    else
      var p := NatToDigits(n / 10);
      assert (p + [DigitChar(n % 10)])[..|p|] == p;
      p + [DigitChar(n % 10)]
  }

  lemma {:induction false} DigitsFit(n: nat, k: nat)
    requires 1 <= k && n < Pow10(k)
    ensures |NatToDigits(n)| <= k
  {
    if n >= 10 {
      DigitsFit(n / 10, k - 1);
    }
  }

  function Zeros(k: nat): (z: string)
    ensures |z| == k && AllDigits(z) && DigitsValue(z) == 0
  {
    if k == 0 then "" else
      var z := Zeros(k - 1);
      assert (z + "0")[..k - 1] == z;
      z + "0"
  }

  /** The digits s with zeros put in front up to the given width. */
  function ZeroPad(s: string, width: nat): (r: string)
    requires AllDigits(s)
    ensures |r| == if |s| < width then width else |s|
    ensures AllDigits(r) && DigitsValue(r) == DigitsValue(s)
  {
    var z := Zeros(if |s| < width then width - |s| else 0);
    DigitsValueAppend(z, s);
    z + s
  }

  /** The text of a decimal: its whole part, then, when it has a scale, a '.' and its
      fraction written with exactly `scale` digits. */
  function Render(d: Dec): string {
    var whole := NatToDigits(d.whole);
    if d.scale == 0 then whole
    else whole + "." + ZeroPad(NatToDigits(d.frac), d.scale)
  }

  /** `Number.prototype.toString` of a non-negative decimal. */
  function ToText(d: Dec): string
    requires WellFormed(d)
  {
    Render(Normalize(d))
  }

  lemma DigitRunOfDigits(s: string)
    requires AllDigits(s)
    ensures DigitRun(s) == |s|
  {
  }

  lemma DigitRunBeforeDot(whole: string, rest: string)
    requires AllDigits(whole)
    ensures DigitRun(whole + "." + rest) == |whole|
  {
    var s := whole + "." + rest;
    var n := DigitRun(s);
    assert s[|whole|] == '.';
    assert forall i :: 0 <= i < |whole| ==> s[i] == whole[i];
  }

  /** Rendered text matches the quantity pattern and parses back to the same decimal. */
  lemma RenderRoundTrip(d: Dec)
    requires WellFormed(d)
    ensures MatchesQuantityPattern(Render(d))
    ensures ParseDecimal(Render(d)) == Some(d)
  {
    var s := Render(d);
    var whole := NatToDigits(d.whole);
    if d.scale == 0 {
      DigitRunOfDigits(whole);
      assert s[..|s|] == whole;
    } else {
      var digits := NatToDigits(d.frac);
      DigitsFit(d.frac, d.scale);
      var pad := ZeroPad(digits, d.scale);
      assert s == whole + "." + pad;
      DigitRunBeforeDot(whole, pad);
      var n := |whole|;
      assert s[..n] == whole;
      assert s[n] == '.';
      assert s[n + 1..] == pad;
      DigitRunOfDigits(pad);
      assert pad[..|pad|] == pad;
      assert FractionDigits(s, n) == pad;
    }
  }

  /** What the field shows after a +/- click parses back to the value that was written. */
  lemma ToTextRoundTrip(d: Dec)
    requires WellFormed(d)
    ensures MatchesQuantityPattern(ToText(d))
    ensures ParseFloat(ToText(d)) == Some(Value(d))
  {
    RenderRoundTrip(Normalize(d));
  }

  lemma FractionBelowOne(d: Dec)
    requires WellFormed(d)
    ensures 0.0 <= d.frac as real / Pow10(d.scale) as real < 1.0
  {
    QuotientBelowOne(d.frac as real, Pow10(d.scale) as real);
  }

  lemma QuotientBelowOne(f: real, p: real)
    requires 0.0 <= f < p
    ensures 0.0 <= f / p < 1.0
  {
    var q := f / p;
    assert q * p == f;
    if q >= 1.0 {
      assert false;
    }
  }

  /** The value plus one. */
  function Increment(d: Dec): (r: Dec)
    requires WellFormed(d)
    ensures WellFormed(r) && Value(r) == Value(d) + 1.0
  {
    Dec(d.whole + 1, d.frac, d.scale)
  }

  /** The value minus one, but never below zero: `Math.max(0, v - 1)`. */
  function Decrement(d: Dec): (r: Dec)
    requires WellFormed(d)
    ensures WellFormed(r)
    ensures Value(r) == if Value(d) >= 1.0 then Value(d) - 1.0 else 0.0
  {
    FractionBelowOne(d);
    if d.whole >= 1 then Dec(d.whole - 1, d.frac, d.scale) else Dec(0, 0, 0)
  }
}
