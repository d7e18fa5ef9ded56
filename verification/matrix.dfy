/** The 3x3 colour part of the `feColorMatrix` primitives that grayscale,
    sepia and saturate emit. Each 4x5 matrix of index.js is these nine
    coefficients laid out as `r0 r1 r2 0 0 g0 g1 g2 0 0 b0 b1 b2 0 0 0 0 0 1 0`. */
module ColorMatrix {

  datatype Mat3 = Mat3(r0: real, r1: real, r2: real,
                       g0: real, g1: real, g2: real,
                       b0: real, b1: real, b2: real)
  {
    function Coefficients(): (cs: seq<real>)
      ensures |cs| == 9
    {
      [r0, r1, r2, g0, g1, g2, b0, b1, b2]
    }

    /** Every row sums to one, so grey stays grey. */
    predicate PreservesGrey() {
      r0 + r1 + r2 == 1.0 && g0 + g1 + g2 == 1.0 && b0 + b1 + b2 == 1.0
    }
  }

  const Identity := Mat3(1.0, 0.0, 0.0, 0.0, 1.0, 0.0, 0.0, 0.0, 1.0)

  /** Rec. 709 luminance weights used by grayscale. */
  const LumaR := 0.2126
  const LumaG := 0.7152
  const LumaB := 0.0722

  /** Grayscale by `amount`: identity interpolated toward the luminance
      matrix with weight `1 - amount` on the identity (index.js:94-102). */
  function Grayscale(amount: real): Mat3
  {
    var t := 1.0 - amount;
    Mat3(0.2126 + 0.7874 * t, 0.7152 - 0.7152 * t, 0.0722 - 0.0722 * t,
         0.2126 - 0.2126 * t, 0.7152 + 0.2848 * t, 0.0722 - 0.0722 * t,
         0.2126 - 0.2126 * t, 0.7152 - 0.7152 * t, 0.0722 + 0.9278 * t)
  }

  /** Every grayscale amount keeps grey pixels grey. */
  lemma GrayscalePreservesGrey(amount: real)
    ensures Grayscale(amount).PreservesGrey()
  {
  }

  /** `grayscale(0)` leaves colours alone. */
  lemma GrayscaleZeroIsIdentity()
    ensures Grayscale(0.0) == Identity
  {
  }

  /** `grayscale(1)` maps every channel to the luminance of the pixel. */
  lemma GrayscaleOneIsLuminance()
    ensures Grayscale(1.0) == Mat3(LumaR, LumaG, LumaB, LumaR, LumaG, LumaB, LumaR, LumaG, LumaB)
  {
  }

  /** Sepia by `amount`, the same interpolation toward the sepia-tone matrix (index.js:129-137). */
  function Sepia(amount: real): (m: Mat3)
    ensures amount == 0.0 ==> m == Identity
    ensures amount == 1.0 ==> m == Mat3(0.393, 0.769, 0.189, 0.349, 0.686, 0.168, 0.272, 0.534, 0.131)
  {
    var t := 1.0 - amount;
    Mat3(0.393 + 0.607 * t, 0.769 - 0.769 * t, 0.189 - 0.189 * t,
         0.349 - 0.349 * t, 0.686 + 0.314 * t, 0.168 - 0.168 * t,
         0.272 - 0.272 * t, 0.534 - 0.534 * t, 0.131 + 0.869 * t)
  }

  /** Saturate as index.js:164-172 writes it: the green diagonal uses 0.295. */
  function SaturateAsWritten(amount: real): (m: Mat3)
    ensures m.r0 + m.r1 + m.r2 == 1.0 && m.b0 + m.b1 + m.b2 == 1.0
  {
    Mat3(0.213 + 0.787 * amount, 0.715 - 0.715 * amount, 0.072 - 0.072 * amount,
         0.213 - 0.213 * amount, 0.715 + 0.295 * amount, 0.072 - 0.072 * amount,
         0.213 - 0.213 * amount, 0.715 - 0.715 * amount, 0.072 + 0.928 * amount)
  }

  /** As written, `saturate(1)`, which should change nothing, brightens green
      by one percent, and every non-zero amount breaks grey preservation. */
  lemma SaturateAsWrittenNotIdentity(amount: real)
    requires amount != 0.0
    ensures SaturateAsWritten(1.0) != Identity
    ensures SaturateAsWritten(1.0).g1 == 1.01
    ensures !SaturateAsWritten(amount).PreservesGrey()
  {
    var m := SaturateAsWritten(amount);
    assert m.g0 + m.g1 + m.g2 == 1.0 + 0.01 * amount;
  }

  /** Saturate with the standard coefficient 0.285 = 1 - 0.715 on the green diagonal. */
  function Saturate(amount: real): (m: Mat3)
    ensures m.PreservesGrey()
    ensures amount == 1.0 ==> m == Identity
    ensures amount == 0.0 ==> m.r0 == m.g0 == m.b0 && m.r1 == m.g1 == m.b1 && m.r2 == m.g2 == m.b2
  {
    Mat3(0.213 + 0.787 * amount, 0.715 - 0.715 * amount, 0.072 - 0.072 * amount,
         0.213 - 0.213 * amount, 0.715 + 0.285 * amount, 0.072 - 0.072 * amount,
         0.213 - 0.213 * amount, 0.715 - 0.715 * amount, 0.072 + 0.928 * amount)
  }

  /** The corrected matrix differs from the written one only in the green diagonal. */
  lemma SaturateCorrectionIsLocal(amount: real)
    ensures var w := SaturateAsWritten(amount); var c := Saturate(amount);
      w.(g1 := c.g1) == c && w.g1 - c.g1 == 0.01 * amount
  {
  }
}
