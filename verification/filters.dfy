/** The filter registry of index.js (`filters.*`): one pure function per
    filter keyword, each returning the three optional lists `filtersCSS`,
    `filtersSVG` and `filtersIE`. An absent list (`None`) and an empty one
    (`Some([])`) are different results, as they are in the source. */
module Filters {
  import opened Wrappers
  import opened Text
  import opened Numbers
  import Units
  import Svg
  import ColorMatrix

  /** The two services the registry takes from outside: JavaScript's
      number-to-string conversion (`${x}`), and the onecolor library's
      `oneColor(c).cssa()`, which yields `None` when the colour does not
      parse (the source then throws a TypeError). */
  datatype Format = Format(num: real -> string, cssa: string -> Option<string>)

  datatype Props = Props(css: Option<seq<string>>, svg: Option<seq<string>>, ie: Option<seq<string>>)

  /** The `{}` a rejecting filter returns. */
  const Empty := Props(None, None, None)

  const LegacyPrefix := "progid:DXImageTransform.Microsoft."
  /** The legacy filter `progid:DXImageTransform.Microsoft.<call>`. */
  function Legacy(call: string): (t: string)
    ensures IsLegacyToken(t)
  {
    var t := LegacyPrefix + call;
    assert t[..|LegacyPrefix|] == LegacyPrefix;
    t
  }

  const LightToken := Legacy("Light()")

  /** A token of the old Internet Explorer `filter` syntax as this program writes them. */
  predicate IsLegacyToken(t: string) {
    t == Gray || t == InvertToken || (|LegacyPrefix| <= |t| && t[..|LegacyPrefix|] == LegacyPrefix)
  }

  const Gray := "gray"
  const InvertToken := "invert"

  /** What every filter other than `none` promises about its lists: SVG
      entries are markup (never the `none` marker) and IE entries are legacy tokens. */
  predicate WellFormed(p: Props) {
    && (p.svg.Some? ==> forall e :: e in p.svg.value ==> |e| > 0 && e[0] == '<')
    && (p.ie.Some? ==> forall t :: t in p.ie.value ==> IsLegacyToken(t))
  }

  /** The amount a one-argument filter works with: `input || default`,
      then divided by 100 when the `%` unit was captured (any defined unit). */
  function Normalize(input: JsNum, unit: Option<string>, default: real): (a: real)
    ensures input.Falsy() && unit.None? ==> a == default
    ensures input.Falsy() && unit.Some? ==> a == default / 100.0
    ensures !input.Falsy() && unit.None? ==> input == Num(a)
    ensures !input.Falsy() && unit.Some? ==> input == Num(100.0 * a)
  {
    var amount := OrDefault(input, default);
    if unit.Some? then amount / 100.0 else amount
  }

  function Element(tag: string, attrs: seq<Svg.Attr>): (e: string)
    ensures |e| > 0 && e[0] == '<'
  {
    Svg.CreateSvgElement(tag, attrs, None)
  }

  function Parent(tag: string, attrs: seq<Svg.Attr>, children: seq<string>): (e: string)
    ensures |e| > 0 && e[0] == '<'
  {
    Svg.CreateSvgElement(tag, attrs, Some(children))
  }

  /** The `values` text of a 4x5 `feColorMatrix` whose colour block is `m`. */
  function MatrixValues(f: Format, m: ColorMatrix.Mat3): string {
    f.num(m.r0) + " " + f.num(m.r1) + " " + f.num(m.r2) + " 0 0 "
    + f.num(m.g0) + " " + f.num(m.g1) + " " + f.num(m.g2) + " 0 0 "
    + f.num(m.b0) + " " + f.num(m.b1) + " " + f.num(m.b2) + " 0 0 0 0 0 1 0"
  }

  function MatrixElement(f: Format, m: ColorMatrix.Mat3): (e: string)
    ensures |e| > 0 && e[0] == '<'
  {
    Element("feColorMatrix", [("type", "matrix"), ("color-interpolation-filters", "sRGB"),
                              ("values", MatrixValues(f, m))])
  }

  /** An `feComponentTransfer` with one child per channel function. */
  function Transfer(children: seq<string>): (e: string)
    ensures |e| > 0 && e[0] == '<'
  {
    Parent("feComponentTransfer", [("color-interpolation-filters", "sRGB")], children)
  }

  /** `filters.none`. */
  function None_(): (p: Props)
    ensures p.css == Some(["none"]) && p.svg == Some(["none"]) && p.ie.None?
  {
    Props(Some(["none"]), Some(["none"]), None)
  }

  /** `filters.grayscale`. */
  function Grayscale(f: Format, input: JsNum, unit: Option<string>): (p: Props)
    ensures WellFormed(p)
    ensures var a := Normalize(input, unit, 0.0);
      && p.css == Some(["grayscale(" + f.num(a) + ")"])
      && p.svg == Some([MatrixElement(f, ColorMatrix.Grayscale(a))])
      && p.ie.Some?
      && (p.ie.value == [Gray] <==> a >= 0.5)
      && (p.ie.value == [] <==> a < 0.5)
  {
    var a := Normalize(input, unit, 0.0);
    var p := Props(Some(["grayscale(" + f.num(a) + ")"]),
                   Some([MatrixElement(f, ColorMatrix.Grayscale(a))]),
                   Some(if a >= 0.5 then [Gray] else []));
    assert WellFormed(p);
    p
  }

  /** `filters.sepia`. */
  function Sepia(f: Format, input: JsNum, unit: Option<string>): (p: Props)
    ensures WellFormed(p)
    ensures var a := Normalize(input, unit, 0.0);
      && p.css == Some(["sepia(" + f.num(a) + ")"])
      && p.svg == Some([MatrixElement(f, ColorMatrix.Sepia(a))])
      && p.ie.Some?
      && (p.ie.value == [Gray, LightToken] <==> a >= 0.5)
      && (p.ie.value == [] <==> a < 0.5)
  {
    var a := Normalize(input, unit, 0.0);
    var p := Props(Some(["sepia(" + f.num(a) + ")"]),
                   Some([MatrixElement(f, ColorMatrix.Sepia(a))]),
                   Some(if a >= 0.5 then [Gray, LightToken] else []));
    assert WellFormed(p);
    p
  }

  /** `filters.saturate`, drawing the matrix exactly as index.js:164-172 writes it. */
  function Saturate(f: Format, input: JsNum, unit: Option<string>): (p: Props)
    ensures WellFormed(p)
    ensures var a := Normalize(input, unit, 1.0);
      && p.css == Some(["saturate(" + f.num(a) + ")"])
      && p.svg == Some([MatrixElement(f, ColorMatrix.SaturateAsWritten(a))])
      && p.ie.None?
  {
    var a := Normalize(input, unit, 1.0);
    Props(Some(["saturate(" + f.num(a) + ")"]),
          Some([MatrixElement(f, ColorMatrix.SaturateAsWritten(a))]),
          None)
  }

  /** `filters.saturate` with the green coefficient corrected (see `ColorMatrix.Saturate`). */
  function SaturateCorrected(f: Format, input: JsNum, unit: Option<string>): (p: Props)
    ensures WellFormed(p)
    ensures var a := Normalize(input, unit, 1.0);
      && p.css == Some(["saturate(" + f.num(a) + ")"])
      && p.svg == Some([MatrixElement(f, ColorMatrix.Saturate(a))])
      && p.ie.None?
  {
    var a := Normalize(input, unit, 1.0);
    Props(Some(["saturate(" + f.num(a) + ")"]),
          Some([MatrixElement(f, ColorMatrix.Saturate(a))]),
          None)
  }

  /** `filters.hueRotate`: the angle is converted to degrees. */
  function HueRotate(f: Format, input: JsNum, unit: Option<string>): (p: Props)
    ensures WellFormed(p)
    ensures var deg := Units.Angle(OrDefault(input, 0.0), unit);
      && p.css == Some(["hue-rotate(" + f.num(deg) + "deg)"])
      && p.svg == Some([Element("feColorMatrix", [("type", "hueRotate"),
                          ("color-interpolation-filters", "sRGB"), ("values", f.num(deg))])])
      && p.ie.None?
  {
    var deg := Units.Angle(OrDefault(input, 0.0), unit);
    Props(Some(["hue-rotate(" + f.num(deg) + "deg)"]),
          Some([Element("feColorMatrix", [("type", "hueRotate"),
                  ("color-interpolation-filters", "sRGB"), ("values", f.num(deg))])]),
          None)
  }

  /** The same angle written in any unit gives the same filter: `t` turns,
      `400·t` grad, `2π·t` rad, `360·t` deg and a bare `360·t`. */
  lemma HueRotateUnitsAgree(f: Format, t: real)
    ensures HueRotate(f, Num(t), Some("turn")) == HueRotate(f, Num(360.0 * t), Some("deg"))
    ensures HueRotate(f, Num(400.0 * t), Some("grad")) == HueRotate(f, Num(360.0 * t), Some("deg"))
    ensures HueRotate(f, Num(2.0 * Units.Pi * t), Some("rad")) == HueRotate(f, Num(360.0 * t), Some("deg"))
    ensures HueRotate(f, Num(360.0 * t), None) == HueRotate(f, Num(360.0 * t), Some("deg"))
  {
    Units.FullCircle(t);
    var deg := Units.Angle(OrDefault(Num(360.0 * t), 0.0), Some("deg"));
    assert deg == 360.0 * t by { NumOrZero(360.0 * t); }
    assert Units.Angle(OrDefault(Num(t), 0.0), Some("turn")) == deg by { NumOrZero(t); }
    assert Units.Angle(OrDefault(Num(400.0 * t), 0.0), Some("grad")) == deg by { NumOrZero(400.0 * t); }
    assert Units.Angle(OrDefault(Num(2.0 * Units.Pi * t), 0.0), Some("rad")) == deg by { NumOrZero(2.0 * Units.Pi * t); }
    assert Units.Angle(OrDefault(Num(360.0 * t), 0.0), None) == deg;
    HueRotateOfDegrees(f, Num(t), Some("turn"), Num(360.0 * t), Some("deg"));
    HueRotateOfDegrees(f, Num(400.0 * t), Some("grad"), Num(360.0 * t), Some("deg"));
    HueRotateOfDegrees(f, Num(2.0 * Units.Pi * t), Some("rad"), Num(360.0 * t), Some("deg"));
    HueRotateOfDegrees(f, Num(360.0 * t), None, Num(360.0 * t), Some("deg"));
  }

  /** A number defaulting to 0 is itself, zero included. */
  lemma NumOrZero(x: real)
    ensures OrDefault(Num(x), 0.0) == x
  {
  }

  /** `hueRotate` depends on its input only through the angle in degrees. */
  lemma HueRotateOfDegrees(f: Format, a: JsNum, ua: Option<string>, b: JsNum, ub: Option<string>)
    requires Units.Angle(OrDefault(a, 0.0), ua) == Units.Angle(OrDefault(b, 0.0), ub)
    ensures HueRotate(f, a, ua) == HueRotate(f, b, ub)
  {
  }

  /** The per-channel lookup table of `invert`. */
  function InvertTable(f: Format, tag: string, a: real): string
  {
    Element(tag, [("type", "table"), ("tableValues", f.num(a) + " " + f.num(1.0 - a))])
  }

  /** `filters.invert`. */
  function Invert(f: Format, input: JsNum, unit: Option<string>): (p: Props)
    ensures WellFormed(p)
    ensures var a := Normalize(input, unit, 0.0);
      && p.css == Some(["invert(" + f.num(a) + ")"])
      && p.svg == Some([Transfer([InvertTable(f, "feFuncR", a), InvertTable(f, "feFuncG", a),
                                  InvertTable(f, "feFuncB", a)])])
      && p.ie.Some?
      && (p.ie.value == [InvertToken] <==> a >= 0.5)
      && (p.ie.value == [] <==> a < 0.5)
  {
    var a := Normalize(input, unit, 0.0);
    var p := Props(Some(["invert(" + f.num(a) + ")"]),
                   Some([Transfer([InvertTable(f, "feFuncR", a), InvertTable(f, "feFuncG", a),
                                   InvertTable(f, "feFuncB", a)])]),
                   Some(if a >= 0.5 then [InvertToken] else []));
    assert WellFormed(p);
    p
  }

  /** `filters.opacity`: only the alpha channel is remapped. */
  function Opacity(f: Format, input: JsNum, unit: Option<string>): (p: Props)
    ensures WellFormed(p)
    ensures var a := Normalize(input, unit, 1.0);
      && p.css == Some(["opacity(" + f.num(a) + ")"])
      && p.svg == Some([Transfer([Element("feFuncA", [("type", "table"), ("tableValues", "0 " + f.num(a))])])])
      && p.ie.None?
  {
    var a := Normalize(input, unit, 1.0);
    Props(Some(["opacity(" + f.num(a) + ")"]),
          Some([Transfer([Element("feFuncA", [("type", "table"), ("tableValues", "0 " + f.num(a))])])]),
          None)
  }

  /** A linear channel function with the given slope and, optionally, intercept. */
  function Linear(f: Format, tag: string, slope: real, intercept: Option<real>): string
  {
    match intercept
    case None => Element(tag, [("type", "linear"), ("slope", f.num(slope))])
    case Some(i) => Element(tag, [("type", "linear"), ("slope", f.num(slope)), ("intercept", f.num(i))])
  }

  /** `filters.brightness`: always exactly one Light token. */
  function Brightness(f: Format, input: JsNum, unit: Option<string>): (p: Props)
    ensures WellFormed(p)
    ensures var a := Normalize(input, unit, 1.0);
      && p.css == Some(["brightness(" + f.num(a) + ")"])
      && p.svg == Some([Transfer([Linear(f, "feFuncR", a, None), Linear(f, "feFuncG", a, None),
                                  Linear(f, "feFuncB", a, None)])])
      && p.ie == Some([LightToken])
  {
    var a := Normalize(input, unit, 1.0);
    Props(Some(["brightness(" + f.num(a) + ")"]),
          Some([Transfer([Linear(f, "feFuncR", a, None), Linear(f, "feFuncG", a, None),
                          Linear(f, "feFuncB", a, None)])]),
          Some([LightToken]))
  }

  /** The contrast intercept: mid-grey (0.5) is a fixed point of `slope * x + intercept`. */
  function ContrastIntercept(a: real): (i: real)
    ensures a * 0.5 + i == 0.5
  {
    -(0.5 * a) + 0.5
  }

  /** `filters.contrast`. */
  function Contrast(f: Format, input: JsNum, unit: Option<string>): (p: Props)
    ensures WellFormed(p)
    ensures var a := Normalize(input, unit, 1.0); var i := Some(ContrastIntercept(a));
      && p.css == Some(["contrast(" + f.num(a) + ")"])
      && p.svg == Some([Transfer([Linear(f, "feFuncR", a, i), Linear(f, "feFuncG", a, i),
                                  Linear(f, "feFuncB", a, i)])])
      && p.ie.None?
  {
    var a := Normalize(input, unit, 1.0);
    var i := Some(ContrastIntercept(a));
    Props(Some(["contrast(" + f.num(a) + ")"]),
          Some([Transfer([Linear(f, "feFuncR", a, i), Linear(f, "feFuncG", a, i),
                          Linear(f, "feFuncB", a, i)])]),
          None)
  }

  /** `filters.blur`: a non-zero amount with the empty unit is refused with `{}`. */
  function Blur(f: Format, input: JsNum, unit: Option<string>): (p: Props)
    ensures WellFormed(p)
    ensures p == Empty <==> unit == Some("") && !input.Falsy()
    ensures p != Empty ==>
      var px := Units.Length(OrDefault(input, 0.0), unit);
      && p.css == Some(["blur(" + f.num(px) + "px)"])
      && p.svg == Some([Element("feGaussianBlur", [("stdDeviation", f.num(px))])])
      && p.ie == Some([Legacy("Blur(pixelradius=" + f.num(px) + ")")])
  {
    var amount := OrDefault(input, 0.0);
    if unit == Some("") && amount != 0.0 then Empty
    else
      var px := Units.Length(amount, unit);
      Props(Some(["blur(" + f.num(px) + "px)"]),
            Some([Element("feGaussianBlur", [("stdDeviation", f.num(px))])]),
            Some([Legacy("Blur(pixelradius=" + f.num(px) + ")")]))
  }

  /** `Math.round(x) || 0`. */
  function RoundOrZero(x: JsNum): (r: real)
    ensures r == r.Floor as real
    ensures x.NaN? ==> r == 0.0
    ensures x.Num? ==> x.v - 0.5 < r <= x.v + 0.5
  {
    OrDefault(Round(x), 0.0)
  }

  /** The refusal test of `filters.dropShadow`: a unit slot holding the
      unitless marker `' '` beside a non-zero rounded value, or a truthy spread. */
  predicate DropShadowRejects(x: JsNum, ux: Option<string>, y: JsNum, uy: Option<string>,
                              rad: JsNum, ur: Option<string>, spread: JsNum)
  {
    || (ux == Some(" ") && RoundOrZero(x) != 0.0)
    || (uy == Some(" ") && RoundOrZero(y) != 0.0)
    || (ur == Some(" ") && RoundOrZero(rad) != 0.0)
    || !spread.Falsy()
  }

  /** The shadow colour: `inputColor || '#000000'`. */
  function ShadowColor(color: string): (c: string)
    ensures |c| > 0
    ensures color == "" ==> c == "#000000"
    ensures color != "" ==> c == color
  {
    if color == "" then "#000000" else color
  }

  /** The five primitives of a drop shadow, in order. */
  function ShadowChain(f: Format, dx: real, dy: real, radius: real, flood: string): (els: seq<string>)
    ensures |els| == 5 && forall e :: e in els ==> |e| > 0 && e[0] == '<'
  {
    [ Element("feGaussianBlur", [("in", "SourceAlpha"), ("stdDeviation", f.num(radius))]),
      Element("feOffset", [("dx", f.num(dx + 1.0)), ("dy", f.num(dy + 1.0)), ("result", "offsetblur")]),
      Element("feFlood", [("flood-color", flood)]),
      Element("feComposite", [("in2", "offsetblur"), ("operator", "in")]),
      Parent("feMerge", [], [Element("feMergeNode", []), Element("feMergeNode", [("in", "SourceGraphic")])]) ]
  }

  /** The glow and shadow tokens, both carrying the colour with zero strength. */
  function ShadowTokens(c: string): (ts: seq<string>)
    ensures |ts| == 2 && IsLegacyToken(ts[0]) && IsLegacyToken(ts[1])
    ensures ts[0] == LegacyPrefix + "Glow(color=" + c + ",strength=0)"
    ensures ts[1] == LegacyPrefix + "Shadow(color=" + c + ",strength=0)"
  {
    [Legacy("Glow(color=" + c + ",strength=0)"), Legacy("Shadow(color=" + c + ",strength=0)")]
  }

  /** The three lists of an accepted drop shadow, offsets and radius already in pixels. */
  function ShadowProps(f: Format, dx: real, dy: real, blur: real, c: string, flood: string): (p: Props)
    ensures WellFormed(p) && p != Empty
    ensures p.css == Some(["drop-shadow(" + f.num(dx) + "px " + f.num(dy) + "px " + f.num(blur) + "px " + c + ")"])
    ensures p.svg == Some(ShadowChain(f, dx, dy, blur, flood))
    ensures p.ie == Some(ShadowTokens(c))
  {
    var ts := ShadowTokens(c);
    assert forall t :: t in ts ==> t == ts[0] || t == ts[1];
    Props(Some(["drop-shadow(" + f.num(dx) + "px " + f.num(dy) + "px " + f.num(blur) + "px " + c + ")"]),
          Some(ShadowChain(f, dx, dy, blur, flood)), Some(ts))
  }

  /** `filters.dropShadow`. The spread unit is accepted and ignored, as in the source.
      `Failure(c)` is the TypeError the source raises when onecolor cannot parse `c`. */
  function DropShadow(f: Format, x: JsNum, ux: Option<string>, y: JsNum, uy: Option<string>,
                      rad: JsNum, ur: Option<string>, spread: JsNum, uSpread: Option<string>,
                      color: string): (r: Result<Props, string>)
    ensures r == Success(Empty) <==> DropShadowRejects(x, ux, y, uy, rad, ur, spread)
    ensures r.Failure? <==>
              !DropShadowRejects(x, ux, y, uy, rad, ur, spread) && f.cssa(ShadowColor(color)).None?
    ensures r.Failure? ==> r.error == ShadowColor(color)
    ensures r.Success? ==> WellFormed(r.value)
    ensures r.Success? && r.value != Empty ==>
      var c := ShadowColor(color);
      r.value == ShadowProps(f, Units.Length(RoundOrZero(x), ux), Units.Length(RoundOrZero(y), uy),
                             Units.Length(RoundOrZero(rad), ur), c, f.cssa(c).value)
  {
    var c := ShadowColor(color);
    if DropShadowRejects(x, ux, y, uy, rad, ur, spread) then Success(Empty)
    else
      match f.cssa(c)
      case None => Failure(c)
      case Some(flood) =>
        Success(ShadowProps(f, Units.Length(RoundOrZero(x), ux), Units.Length(RoundOrZero(y), uy),
                            Units.Length(RoundOrZero(rad), ur), c, flood))
  }

  /** `N%` and `N/100` describe the same filter: for each amount filter a
      captured `%` divides the amount by 100, and only then. */
  lemma PercentIsFraction(f: Format, a: real)
    requires a != 0.0
    ensures Grayscale(f, Num(100.0 * a), Some("%")) == Grayscale(f, Num(a), None)
    ensures Sepia(f, Num(100.0 * a), Some("%")) == Sepia(f, Num(a), None)
    ensures Saturate(f, Num(100.0 * a), Some("%")) == Saturate(f, Num(a), None)
    ensures SaturateCorrected(f, Num(100.0 * a), Some("%")) == SaturateCorrected(f, Num(a), None)
    ensures Invert(f, Num(100.0 * a), Some("%")) == Invert(f, Num(a), None)
    ensures Opacity(f, Num(100.0 * a), Some("%")) == Opacity(f, Num(a), None)
    ensures Brightness(f, Num(100.0 * a), Some("%")) == Brightness(f, Num(a), None)
    ensures Contrast(f, Num(100.0 * a), Some("%")) == Contrast(f, Num(a), None)
  {
    assert Normalize(Num(100.0 * a), Some("%"), 0.0) == a == Normalize(Num(a), None, 0.0);
    assert Normalize(Num(100.0 * a), Some("%"), 1.0) == a == Normalize(Num(a), None, 1.0);
  }

  /** At zero the two spellings part: `0` and `0%` are both falsy, so the
      default is taken first and a captured `%` still divides it by 100.
      For the filters defaulting to 1, `0%` acts as 0.01 and a bare `0` as 1;
      for those defaulting to 0 the two agree. */
  lemma ZeroPercent(f: Format)
    ensures Opacity(f, Num(0.0), Some("%")) == Opacity(f, Num(0.01), None)
    ensures Opacity(f, Num(0.0), None) == Opacity(f, Num(1.0), None)
    ensures Saturate(f, Num(0.0), Some("%")) == Saturate(f, Num(0.01), None)
    ensures Saturate(f, Num(0.0), None) == Saturate(f, Num(1.0), None)
    ensures Brightness(f, Num(0.0), Some("%")) == Brightness(f, Num(0.01), None)
    ensures Brightness(f, Num(0.0), None) == Brightness(f, Num(1.0), None)
    ensures Contrast(f, Num(0.0), Some("%")) == Contrast(f, Num(0.01), None)
    ensures Contrast(f, Num(0.0), None) == Contrast(f, Num(1.0), None)
    ensures Grayscale(f, Num(0.0), Some("%")) == Grayscale(f, Num(0.0), None)
    ensures Sepia(f, Num(0.0), Some("%")) == Sepia(f, Num(0.0), None)
    ensures Invert(f, Num(0.0), Some("%")) == Invert(f, Num(0.0), None)
  {
    assert Normalize(Num(0.0), Some("%"), 1.0) == 0.01 == Normalize(Num(0.01), None, 1.0);
    assert Normalize(Num(0.0), None, 1.0) == 1.0 == Normalize(Num(1.0), None, 1.0);
    assert Normalize(Num(0.0), Some("%"), 0.0) == 0.0 == Normalize(Num(0.0), None, 0.0);
  }

  /** Grayscale and sepia with a missing or zero amount draw the identity
      matrix and add no legacy filter. Saturate falls back to amount 1, where
      the corrected matrix is the identity but the matrix as written is not
      (`ColorMatrix.SaturateAsWrittenNotIdentity`). */
  lemma MissingAmountIsNeutral(f: Format, input: JsNum)
    requires input.Falsy()
    ensures Grayscale(f, input, None).svg == Some([MatrixElement(f, ColorMatrix.Identity)])
    ensures Sepia(f, input, None).svg == Some([MatrixElement(f, ColorMatrix.Identity)])
    ensures Saturate(f, input, None).svg == Some([MatrixElement(f, ColorMatrix.SaturateAsWritten(1.0))])
    ensures SaturateCorrected(f, input, None).svg == Some([MatrixElement(f, ColorMatrix.Identity)])
    ensures Grayscale(f, input, None).ie == Some([]) && Sepia(f, input, None).ie == Some([])
  {
    assert Normalize(input, None, 0.0) == 0.0;
    assert Normalize(input, None, 1.0) == 1.0;
    ColorMatrix.GrayscaleZeroIsIdentity();
  }
}
