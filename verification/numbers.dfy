/** JavaScript numbers as the filter code uses them: a real value or NaN,
    the falsy test behind `x || d`, and `Math.round`. IEEE-754 rounding is
    not modelled; values are exact reals. */
module Numbers {

  datatype JsNum = NaN | Num(v: real) {

    /** `0` and `NaN` are the falsy numbers. */
    predicate Falsy() {
      NaN? || v == 0.0
    }
  }

  /** `x || d` for a number `x` and a numeric default `d`. */
  function OrDefault(x: JsNum, d: real): (r: real)
    ensures x.Falsy() ==> r == d
    ensures !x.Falsy() ==> x == Num(r)
  {
    if x.Falsy() then d else x.v
  }

  /** `Math.round` on a finite number: the nearest integer, halves upward;
      `NaN` stays `NaN`. */
  function Round(x: JsNum): (r: JsNum)
    ensures x.NaN? <==> r.NaN?
    ensures x.Num? ==> r.v == r.v.Floor as real && x.v - 0.5 < r.v <= x.v + 0.5
  {
    match x
    case NaN => NaN
    case Num(v) => Num((v + 0.5).Floor as real)
  }
}
