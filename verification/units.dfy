/** The unit helpers of index.js: lengths become pixels, angles become degrees. */
module Units {
  import opened Wrappers

  /** The double closest to pi, the value of `Math.PI`. */
  const Pi: real := 3.141592653589793

  /** Pixels per `em`/`rem`. */
  const FontSize: real := 16.0

  /** `helpers.length`: `em` and `rem` scale by 16, every other unit
      (`px`, the empty unit, an absent unit, upper-case spellings) leaves the amount alone. */
  function Length(amount: real, unit: Option<string>): (r: real)
    ensures unit == Some("em") || unit == Some("rem") ==> r == 16.0 * amount
    ensures unit != Some("em") && unit != Some("rem") ==> r == amount
  {
    match unit
    case Some(u) => if u == "em" || u == "rem" then amount * FontSize else amount
    case None => amount
  }

  /** `helpers.angle`: converts `grad`, `rad` and `turn` to degrees; `deg`,
      an absent unit and any other text leave the amount alone. */
  function Angle(amount: real, unit: Option<string>): (r: real)
    ensures unit == Some("grad") ==> r == 180.0 * amount / 200.0
    ensures unit == Some("rad") ==> r * Pi == 180.0 * amount
    ensures unit == Some("turn") ==> r == 360.0 * amount
    ensures unit !in {Some("grad"), Some("rad"), Some("turn")} ==> r == amount
  {
    match unit
    case Some(u) =>
      if u == "grad" then (180.0 * amount) / 200.0
      else if u == "rad" then (180.0 * amount) / Pi
      else if u == "turn" then 360.0 * amount
      else amount
    case None => amount
  }

  /** `t` turns are `360·t` degrees whichever unit writes them. */
  lemma FullCircle(t: real)
    ensures Angle(400.0 * t, Some("grad")) == 360.0 * t
    ensures Angle(t, Some("turn")) == 360.0 * t
    ensures Angle(2.0 * Pi * t, Some("rad")) == 360.0 * t
    ensures Angle(360.0 * t, Some("deg")) == 360.0 * t
    ensures Angle(360.0 * t, None) == 360.0 * t
  {
    assert (180.0 * (2.0 * Pi * t)) / Pi == 360.0 * t;
  }

  /** `em` and `rem` are the same length, sixteen times the `px` one. */
  lemma RelativeLengths(a: real)
    ensures Length(a, Some("em")) == Length(a, Some("rem")) == Length(16.0 * a, Some("px"))
    ensures Length(a, Some("")) == Length(a, Some(" ")) == Length(a, None) == a
  {
  }
}
