/** `parseFloat` applied to a run of `[0-9.]` characters, the only text the
    filter grammars hand it: the longest prefix of the form
    `digits [ '.' digits ]` with at least one digit; `NaN` when there is none. */
module Decimal {
  import opened Text
  import opened Numbers

  function Pow10(n: nat): (p: nat)
    ensures p >= 1
  {
    if n == 0 then 1 else 10 * Pow10(n - 1)
  }

  /** The value of a string of decimal digits, most significant first. */
  function DigitsValue(ds: string): nat
    requires forall k :: 0 <= k < |ds| ==> IsDigit(ds[k])
    decreases |ds|
  {
    if |ds| == 0 then 0
    else
      assert IsDigit(ds[|ds| - 1]);
      10 * DigitsValue(ds[..|ds| - 1]) + (ds[|ds| - 1] as int - '0' as int)
  }

  /** `parseFloat(t)`. */
  function ParseDecimal(t: string): (r: JsNum)
    ensures r.Num? ==> r.v >= 0.0
    ensures r.NaN? <==> (|t| == 0 || !IsDigit(t[0])) && (|t| < 2 || t[0] != '.' || !IsDigit(t[1]))
  {
    var d1 := Span(t, 0, IsDigit);
    var whole := DigitsValue(t[..d1]) as real;
    if d1 < |t| && t[d1] == '.' then
      var d2 := Span(t, d1 + 1, IsDigit);
      if d1 == 0 && d2 == 1 then NaN
      else Num(whole + DigitsValue(t[d1 + 1..d2]) as real / Pow10(d2 - d1 - 1) as real)
    else if d1 == 0 then NaN
    else Num(whole)
  }

  /** Decimal rendering of a natural number, the partner of `DigitsValue`. */
  function NatToDigits(n: nat): (ds: string)
    ensures |ds| > 0 && forall k :: 0 <= k < |ds| ==> IsDigit(ds[k])
  {
    var last := ['0' + (n % 10) as char];
    if n < 10 then last else NatToDigits(n / 10) + last
  }

  lemma {:induction false} DigitsValueOfNatToDigits(n: nat)
    ensures DigitsValue(NatToDigits(n)) == n
  {
    var ds := NatToDigits(n);
    if n >= 10 {
      assert ds[..|ds| - 1] == NatToDigits(n / 10);
      DigitsValueOfNatToDigits(n / 10);
    }
  }

  /** A plain run of digits parses to the integer it writes. */
  lemma ParseDecimalOfNat(n: nat)
    ensures ParseDecimal(NatToDigits(n)) == Num(n as real)
  {
    var ds := NatToDigits(n);
    var d1 := Span(ds, 0, IsDigit);
    assert d1 == |ds|;
    assert ds[..d1] == ds;
    DigitsValueOfNatToDigits(n);
  }

  /** `whole.frac` followed by anything that does not continue the number;
      either part may be empty, but not both (`parseFloat(".5")` is 0.5). */
  lemma ParseDecimalOfFraction(t: string, whole: string, frac: string, rest: string)
    requires t == whole + "." + frac + rest
    requires forall k :: 0 <= k < |whole| ==> IsDigit(whole[k])
    requires forall k :: 0 <= k < |frac| ==> IsDigit(frac[k])
    requires |whole| + |frac| > 0
    requires |rest| == 0 || !IsDigit(rest[0])
    ensures ParseDecimal(t)
         == Num(DigitsValue(whole) as real + DigitsValue(frac) as real / Pow10(|frac|) as real)
  {
    var d1 := |whole|;
    var d2 := |whole| + 1 + |frac|;
    FractionLayout(t, whole, frac, rest);
    DigitRun(t, 0, d1);
    DigitRun(t, d1 + 1, d2);
    ParseDecimalOfRuns(t, d1, d2);
  }

  /** Where the pieces of `whole.frac rest` sit. */
  lemma FractionLayout(t: string, whole: string, frac: string, rest: string)
    requires t == whole + "." + frac + rest
    requires forall k :: 0 <= k < |whole| ==> IsDigit(whole[k])
    requires forall k :: 0 <= k < |frac| ==> IsDigit(frac[k])
    requires |rest| == 0 || !IsDigit(rest[0])
    ensures var d1 := |whole|; var d2 := d1 + 1 + |frac|;
      && d2 <= |t| && t[d1] == '.' && t[..d1] == whole && t[d1 + 1..d2] == frac
      && (forall k :: 0 <= k < d1 ==> IsDigit(t[k]))
      && (forall k :: d1 < k < d2 ==> IsDigit(t[k]))
      && (d2 == |t| || !IsDigit(t[d2]))
  {
    var d1 := |whole|;
    var d2 := d1 + 1 + |frac|;
    assert forall k :: 0 <= k < d1 ==> t[k] == whole[k];
    assert forall k :: d1 < k < d2 ==> t[k] == frac[k - d1 - 1];
    assert d2 < |t| ==> t[d2] == rest[0];
  }

  /** How `ParseDecimal` reads a text whose digit runs are known. */
  lemma ParseDecimalOfRuns(t: string, d1: nat, d2: nat)
    requires d1 < d2 <= |t| && t[d1] == '.' && (0 < d1 || d1 + 1 < d2)
    requires Span(t, 0, IsDigit) == d1 && Span(t, d1 + 1, IsDigit) == d2
    ensures ParseDecimal(t)
         == Num(DigitsValue(t[..d1]) as real + DigitsValue(t[d1 + 1..d2]) as real / Pow10(d2 - d1 - 1) as real)
  {
  }

  /** Everything from a second dot on is ignored: `parseFloat("1.2.3")` reads `1.2`. */
  lemma ParseDecimalStopsAtSecondDot(w: nat, f: nat, rest: string)
    ensures ParseDecimal(NatToDigits(w) + "." + NatToDigits(f) + "." + rest)
         == ParseDecimal(NatToDigits(w) + "." + NatToDigits(f))
  {
    var a := NatToDigits(w);
    var b := NatToDigits(f);
    ParseDecimalOfFraction(a + "." + b + "." + rest, a, b, "." + rest);
    ParseDecimalOfFraction(a + "." + b, a, b, "");
    assert a + "." + b + "" == a + "." + b;
  }

  /** `SpanRun` for digit runs. */
  lemma DigitRun(t: string, i: nat, j: nat)
    requires i <= j <= |t|
    requires forall k :: i <= k < j ==> IsDigit(t[k])
    requires j == |t| || !IsDigit(t[j])
    ensures Span(t, i, IsDigit) == j
  {
    SpanRun(t, i, j, IsDigit);
  }
}
