/** The eleven patterns `convert` tries (index.js:438-506), each written as a
    recognizer at one position of the text plus a leftmost search, which is
    how `String.prototype.match` uses an unanchored, case-insensitive regex.

    Every pattern is deterministic at a given start: whitespace, `[0-9.]`,
    `%`, the unit alternatives and `)` begin with pairwise different
    characters, so greedy matching never has a second way to succeed. The
    one place where backtracking matters is drop-shadow's colour
    `[a-z0-9#%,.\s()]*(?=\s*\))`: the colour ends at the last `)` of the run
    of colour characters, and the optional spread group never changes
    whether the pattern succeeds. */
module Grammar {
  import opened Wrappers
  import opened Text
  import opened Numbers
  import opened Decimal

  datatype Pattern =
    | NoneG | GrayscaleG | SepiaG | SaturateG | HueRotateG | InvertG
    | OpacityG | BrightnessG | ContrastG | BlurG | DropShadowG

  /** The order in which `convert` tries the patterns. */
  const Order: seq<Pattern> := [NoneG, GrayscaleG, SepiaG, SaturateG, HueRotateG, InvertG,
                                OpacityG, BrightnessG, ContrastG, BlurG, DropShadowG]

  /** What a successful match hands to the registry: the parsed numbers and
      the captured unit texts (`None` for a group that did not participate). */
  datatype Invocation =
    | NoneCall
    | AmountCall(g: Pattern, amount: JsNum, unit: Option<string>)
    | HueRotateCall(angle: JsNum, angleUnit: string)
    | BlurCall(radius: JsNum, lengthUnit: string)
    | DropShadowCall(x: JsNum, ux: string, y: JsNum, uy: string, r: JsNum, ur: string,
                     spread: JsNum, uSpread: Option<string>, color: string)

  /** The seven patterns of the form `name( [0-9.]+ %* )`. */
  predicate IsAmountPattern(g: Pattern) {
    g in {GrayscaleG, SepiaG, SaturateG, InvertG, OpacityG, BrightnessG, ContrastG}
  }

  /** The function name each pattern starts with, in lower case. */
  function Name(g: Pattern): string {
    match g
    case NoneG => "none"
    case GrayscaleG => "grayscale"
    case SepiaG => "sepia"
    case SaturateG => "saturate"
    case HueRotateG => "hue-rotate"
    case InvertG => "invert"
    case OpacityG => "opacity"
    case BrightnessG => "brightness"
    case ContrastG => "contrast"
    case BlurG => "blur"
    case DropShadowG => "drop-shadow"
  }

  predicate IsNumChar(c: char) {
    IsDigit(c) || c == '.'
  }

  predicate IsPercent(c: char) {
    c == '%'
  }

  /** Drop-shadow's colour class `[a-z0-9#%,.\s()]` under `/i`. */
  predicate IsColorChar(c: char) {
    ('a' <= Lower(c) <= 'z') || IsDigit(c) || c in "#%,.()" || IsSpace(c)
  }

  /** Length of the first alternative in `units` that the text at `i` starts
      with (case-insensitively), or 0 when none does. */
  function UnitAt(s: string, i: nat, units: seq<string>): (n: nat)
    requires i <= |s|
    ensures i + n <= |s|
    decreases |units|
  {
    if |units| == 0 then 0
    else if |units[0]| > 0 && StartsWithCi(s, i, units[0]) then |units[0]|
    else UnitAt(s, i, units[1..])
  }

  /** What `UnitAt` measures is an alternative the text starts with, and
      0 means that no non-empty alternative fits. */
  lemma {:induction false} UnitAtIsAlternative(s: string, i: nat, units: seq<string>)
    requires i <= |s|
    ensures var n := UnitAt(s, i, units);
            n > 0 ==> exists k :: 0 <= k < |units| && |units[k]| == n && StartsWithCi(s, i, units[k])
    ensures UnitAt(s, i, units) == 0 ==>
              forall k :: 0 <= k < |units| && |units[k]| > 0 ==> !StartsWithCi(s, i, units[k])
    decreases |units|
  {
    if |units| > 0 && !(|units[0]| > 0 && StartsWithCi(s, i, units[0])) {
      UnitAtIsAlternative(s, i, units[1..]);
      assert forall k :: 1 <= k < |units| ==> units[k] == units[1..][k - 1];
    }
  }

  const AngleUnits: seq<string> := ["deg", "grad", "rad", "turn"]
  const BlurUnits: seq<string> := ["px", "em", "rem"]
  const ShadowUnits: seq<string> := ["px", "em", "rem", " "]

  /** `\s*` then `)` at `i`. */
  predicate ClosesAt(s: string, i: nat)
    requires i <= |s|
  {
    var j := Span(s, i, IsSpace);
    j < |s| && s[j] == ')'
  }

  /** The text right after `name(`. */
  function ArgsStart(g: Pattern, i: nat): nat {
    i + |Name(g)| + 1
  }

  predicate OpensAt(g: Pattern, s: string, i: nat) {
    StartsWithCi(s, i, Name(g) + "(")
  }

  /** `name\(\s*([0-9.]+)(%)*\s*\)` at `i`. */
  function AmountAt(g: Pattern, s: string, i: nat): (r: Option<Invocation>)
    requires i <= |s| && IsAmountPattern(g)
    ensures r.Some? ==> r.value.AmountCall? && r.value.g == g
    ensures r.Some? ==> r.value.unit.None? || r.value.unit == Some("%")
  {
    if !OpensAt(g, s, i) then None
    else
      var a := Span(s, ArgsStart(g, i), IsSpace);
      var b := Span(s, a, IsNumChar);
      var c := Span(s, b, IsPercent);
      if b > a && ClosesAt(s, c)
      then Some(AmountCall(g, ParseDecimal(s[a..b]), if c > b then Some("%") else None))
      else None
  }

  /** `hue-rotate\((\s*[0-9.]+)(deg|grad|rad|turn)\s*\)` at `i`. */
  function HueRotateAt(s: string, i: nat): (r: Option<Invocation>)
    requires i <= |s|
    ensures r.Some? ==> r.value.HueRotateCall? && |r.value.angleUnit| > 0
  {
    if !OpensAt(HueRotateG, s, i) then None
    else
      var a := Span(s, ArgsStart(HueRotateG, i), IsSpace);
      var b := Span(s, a, IsNumChar);
      var u := UnitAt(s, b, AngleUnits);
      if b > a && u > 0 && ClosesAt(s, b + u)
      then Some(HueRotateCall(ParseDecimal(s[a..b]), s[b..b + u]))
      else None
  }

  /** `blur\((\s*[0-9.]+)(px|em|rem|)\s*\)` at `i`: the unit may be empty. */
  function BlurAt(s: string, i: nat): (r: Option<Invocation>)
    requires i <= |s|
    ensures r.Some? ==> r.value.BlurCall?
  {
    if !OpensAt(BlurG, s, i) then None
    else
      var a := Span(s, ArgsStart(BlurG, i), IsSpace);
      var b := Span(s, a, IsNumChar);
      var u := UnitAt(s, b, BlurUnits);
      if b > a && ClosesAt(s, b + u)
      then Some(BlurCall(ParseDecimal(s[a..b]), s[b..b + u]))
      else None
  }

  /** One `\s*([0-9.]+)(px|em|rem| )` group at `i`: the number, its unit and where it ends. */
  function LengthAt(s: string, i: nat): (r: Option<(JsNum, string, nat)>)
    requires i <= |s|
    ensures r.Some? ==> i < r.value.2 <= |s| && |r.value.1| > 0
  {
    var a := Span(s, i, IsSpace);
    var b := Span(s, a, IsNumChar);
    var u := UnitAt(s, b, ShadowUnits);
    if b > a && u > 0 then Some((ParseDecimal(s[a..b]), s[b..b + u], b + u)) else None
  }

  /** The last `)` in `s[lo..hi]`, if any. */
  function LastClose(s: string, lo: nat, hi: nat): (k: Option<nat>)
    requires lo <= hi <= |s|
    ensures k.Some? ==> lo <= k.value < hi && s[k.value] == ')'
                        && forall m :: k.value < m < hi ==> s[m] != ')'
    ensures k.None? ==> forall m :: lo <= m < hi ==> s[m] != ')'
    decreases hi - lo
  {
    if hi == lo then None
    else if s[hi - 1] == ')' then Some(hi - 1)
    else LastClose(s, lo, hi - 1)
  }

  /** `k` holds the last `)` of `s[lo..hi]`: what the colour's lookahead
      backtracks to. */
  predicate IsLastClose(s: string, lo: nat, hi: nat, k: nat) {
    lo <= k < hi <= |s| && s[k] == ')' && forall m :: k < m < hi ==> s[m] != ')'
  }

  /** `\s*([a-z0-9#%,.\s()]*)(?=\s*\))` at `i`: the colour runs to the last
      `)` of the colour-character run and is trimmed. */
  function ColorAt(s: string, i: nat): (r: Option<string>)
    requires i <= |s|
    ensures var a := Span(s, i, IsSpace);
            r.None? <==> forall m :: a <= m < Span(s, a, IsColorChar) ==> s[m] != ')'
    ensures var a := Span(s, i, IsSpace);
            r.Some? ==> exists k: nat :: IsLastClose(s, a, Span(s, a, IsColorChar), k) && r.value == Trim(s[a..k])
    ensures r.Some? && |r.value| > 0 ==> !IsSpace(r.value[0]) && !IsSpace(r.value[|r.value| - 1])
  {
    var a := Span(s, i, IsSpace);
    var e := Span(s, a, IsColorChar);
    match LastClose(s, a, e)
    case None => None
    case Some(k) => Some(Trim(s[a..k]))
  }

  /** The whole drop-shadow pattern at `i`. */
  function DropShadowAt(s: string, i: nat): (r: Option<Invocation>)
    requires i <= |s|
    ensures r.Some? ==> r.value.DropShadowCall?
    ensures r.Some? && r.value.uSpread.None? ==> r.value.spread.NaN?
  {
    if !OpensAt(DropShadowG, s, i) then None
    else
      match LengthAt(s, ArgsStart(DropShadowG, i))
      case None => None
      case Some(lx) =>
        match LengthAt(s, lx.2)
        case None => None
        case Some(ly) =>
          match LengthAt(s, ly.2)
          case None => None
          case Some(lr) =>
            var spread := LengthAt(s, lr.2);
            var colorFrom := if spread.Some? then spread.value.2 else lr.2;
            match ColorAt(s, colorFrom)
            case None => None
            case Some(color) =>
              Some(DropShadowCall(lx.0, lx.1, ly.0, ly.1, lr.0, lr.1,
                                  if spread.Some? then spread.value.0 else NaN,
                                  if spread.Some? then Some(spread.value.1) else None,
                                  color))
  }

  /** Pattern `g` matched at exactly position `i` (no match past the end). */
  function MatchAt(g: Pattern, s: string, i: nat): (r: Option<Invocation>)
    ensures g != DropShadowG && r.Some? ==> !r.value.DropShadowCall?
  {
    if i > |s| then None
    else if g == DropShadowG then DropShadowAt(s, i)
    else MatchOther(g, s, i)
  }

  /** The patterns other than drop-shadow, none of which yields a drop-shadow invocation. */
  function MatchOther(g: Pattern, s: string, i: nat): (r: Option<Invocation>)
    requires i <= |s| && g != DropShadowG
    ensures r.Some? ==> !r.value.DropShadowCall?
  {
    match g
    case NoneG => if StartsWithCi(s, i, "none") then Some(NoneCall) else None
    case HueRotateG => HueRotateAt(s, i)
    case BlurG => BlurAt(s, i)
    case GrayscaleG | SepiaG | SaturateG | InvertG | OpacityG | BrightnessG | ContrastG =>
      AmountAt(g, s, i)
  }

  /** The least position in `[i, n]` satisfying `p`. */
  function FirstWhere(p: nat -> bool, i: nat, n: nat): (k: Option<nat>)
    requires i <= n
    ensures k.Some? ==> i <= k.value <= n && p(k.value)
    ensures k.Some? ==> forall m :: i <= m < k.value ==> !p(m)
    ensures k.None? ==> forall m :: i <= m <= n ==> !p(m)
    decreases n - i
  {
    if p(i) then Some(i)
    else if i == n then None
    else FirstWhere(p, i + 1, n)
  }

  /** Where `s.match(pattern)` finds its match: the leftmost position at which `g` matches. */
  function MatchPos(g: Pattern, s: string): (k: Option<nat>)
    ensures k.Some? ==> k.value <= |s| && MatchAt(g, s, k.value).Some?
    ensures k.Some? ==> forall m :: 0 <= m < k.value ==> MatchAt(g, s, m).None?
    ensures k.None? ==> forall m :: 0 <= m <= |s| ==> MatchAt(g, s, m).None?
  {
    var matches := (m: nat) => MatchAt(g, s, m).Some?;
    assert forall m: nat :: matches(m) == MatchAt(g, s, m).Some?;
    FirstWhere(matches, 0, |s|)
  }

  /** `s.match(pattern)`: the captures of the leftmost match, or `null`. */
  function Search(g: Pattern, s: string): (r: Option<Invocation>)
    ensures g != DropShadowG && r.Some? ==> !r.value.DropShadowCall?
    ensures r.None? <==> MatchPos(g, s).None?
    ensures r.Some? ==> r == MatchAt(g, s, MatchPos(g, s).value)
  {
    match MatchPos(g, s)
    case None => None
    case Some(k) => MatchAt(g, s, k)
  }

  /** The text `name(digits)` or `name(digits%)`, as a stylesheet author writes it. */
  function AmountText(g: Pattern, n: nat, percent: bool): string {
    Name(g) + "(" + NatToDigits(n) + (if percent then "%" else "") + ")"
  }

  /** Reading back what `AmountText` writes: the amount pattern recognises the
      whole text at its start, with the number and the `%` capture it was
      written with. */
  lemma AmountAtOfText(g: Pattern, n: nat, percent: bool)
    requires IsAmountPattern(g)
    ensures AmountAt(g, AmountText(g, n, percent), 0)
         == Some(AmountCall(g, Num(n as real), if percent then Some("%") else None))
  {
    AmountTextLayout(g, n, percent);
    AmountAtOfLayout(g, AmountText(g, n, percent), n, percent);
  }

  /** Where the pieces of `AmountText` sit in `s`. */
  predicate AmountLayout(g: Pattern, s: string, n: nat, percent: bool) {
    var ds := NatToDigits(n);
    var a := |Name(g)| + 1;
    var b := a + |ds|;
    var c := if percent then b + 1 else b;
    && OpensAt(g, s, 0) && |s| == c + 1 && s[c] == ')' && (percent ==> s[b] == '%')
    && s[a..b] == ds && (forall k :: a <= k < b ==> IsDigit(s[k]))
  }

  lemma AmountAtOfLayout(g: Pattern, s: string, n: nat, percent: bool)
    requires IsAmountPattern(g) && AmountLayout(g, s, n, percent)
    ensures AmountAt(g, s, 0) == Some(AmountCall(g, Num(n as real), if percent then Some("%") else None))
  {
    var a := |Name(g)| + 1;
    var b := a + |NatToDigits(n)|;
    var c := if percent then b + 1 else b;
    assert Span(s, a, IsSpace) == a && Span(s, a, IsNumChar) == b
           && Span(s, b, IsPercent) == c && Span(s, c, IsSpace) == c
           && ParseDecimal(s[a..b]) == Num(n as real) && s[c] == ')' && c < |s| by {
      RunsOfChars(s, a, b, c);
      ParseDigitsAt(s, a, b, n);
    }
    AmountAtOfRuns(g, s, b, c, Num(n as real), if percent then Some("%") else None);
  }

  lemma AmountTextLayout(g: Pattern, n: nat, percent: bool)
    ensures AmountLayout(g, AmountText(g, n, percent), n, percent)
  {
    var ds := NatToDigits(n);
    var tail := ds + (if percent then "%" else "") + ")";
    assert AmountText(g, n, percent) == (Name(g) + "(") + tail;
    OpensAtName(g, AmountText(g, n, percent), tail);
    PiecesAfter(AmountText(g, n, percent), Name(g) + "(", ds, if percent then "%" else "");
  }

  lemma ParseDigitsAt(s: string, a: nat, b: nat, n: nat)
    requires a <= b <= |s| && s[a..b] == NatToDigits(n)
    ensures ParseDecimal(s[a..b]) == Num(n as real)
  {
    ParseDecimalOfNat(n);
  }

  /** `pre + ds + pct + ")"`, read index by index. */
  lemma PiecesAfter(s: string, pre: string, ds: string, pct: string)
    requires s == pre + (ds + pct + ")")
    requires forall k :: 0 <= k < |ds| ==> IsDigit(ds[k])
    ensures var b := |pre| + |ds|;
            && |s| == b + |pct| + 1 && s[b + |pct|] == ')' && (|pct| > 0 ==> s[b] == pct[0])
            && s[|pre|..b] == ds && (forall k :: |pre| <= k < b ==> IsDigit(s[k]))
  {
    var b := |pre| + |ds|;
    assert forall k :: |pre| <= k < b ==> s[k] == ds[k - |pre|];
  }

  /** A text that begins with `name(` opens pattern `g` at 0. */
  lemma OpensAtName(g: Pattern, s: string, rest: string)
    requires s == Name(g) + "(" + rest
    ensures OpensAt(g, s, 0)
  {
    var open := Name(g) + "(";
    forall k | 0 <= k < |open|
      ensures Lower(s[k]) == open[k]
    {
      assert s[k] == open[k];
    }
  }

  /** Digits on `[a, b)`, an optional `%` on `[b, c)` and `)` at `c`: the runs
      the amount pattern measures. */
  lemma RunsOfChars(s: string, a: nat, b: nat, c: nat)
    requires a < b <= c < |s| && c <= b + 1
    requires forall k :: a <= k < b ==> IsDigit(s[k])
    requires c == b + 1 ==> s[b] == '%'
    requires s[c] == ')'
    ensures Span(s, a, IsSpace) == a && Span(s, a, IsNumChar) == b
    ensures Span(s, b, IsPercent) == c && Span(s, c, IsSpace) == c
  {
    SpanRun(s, a, a, IsSpace);
    SpanRun(s, a, b, IsNumChar);
    SpanRun(s, b, c, IsPercent);
    SpanRun(s, c, c, IsSpace);
  }

  /** How `AmountAt` reads a text whose runs are known. */
  lemma AmountAtOfRuns(g: Pattern, s: string, b: nat, c: nat, v: JsNum, unit: Option<string>)
    requires IsAmountPattern(g) && OpensAt(g, s, 0)
    requires ArgsStart(g, 0) < b <= c < |s|
    requires Span(s, ArgsStart(g, 0), IsSpace) == ArgsStart(g, 0)
    requires Span(s, ArgsStart(g, 0), IsNumChar) == b
    requires Span(s, b, IsPercent) == c && Span(s, c, IsSpace) == c && s[c] == ')'
    requires ParseDecimal(s[ArgsStart(g, 0)..b]) == v
    requires unit == if c > b then Some("%") else None
    ensures AmountAt(g, s, 0) == Some(AmountCall(g, v, unit))
  {
  }

  /** `s.match` finds that call at the very start of the text. */
  lemma SearchOfAmountText(g: Pattern, n: nat, percent: bool)
    requires IsAmountPattern(g)
    ensures Search(g, AmountText(g, n, percent))
         == Some(AmountCall(g, Num(n as real), if percent then Some("%") else None))
  {
    var s := AmountText(g, n, percent);
    AmountAtOfText(g, n, percent);
    assert MatchAt(g, s, 0) == AmountAt(g, s, 0);
  }

  // ---------------------------------------------------------------------
  // Reading back written calls with a unit

  /** The unit alternatives, tried in order, are told apart by their first
      character. */
  predicate DistinctHeads(units: seq<string>) {
    && (forall k :: 0 <= k < |units| ==> |units[k]| > 0)
    && forall j, k :: 0 <= j < k < |units| ==> units[j][0] != units[k][0]
  }

  /** A text holding alternative `k` at `i` is measured as that alternative. */
  lemma {:induction false} UnitAtOf(s: string, i: nat, units: seq<string>, k: nat)
    requires i <= |s| && k < |units| && DistinctHeads(units)
    requires StartsWithCi(s, i, units[k])
    ensures UnitAt(s, i, units) == |units[k]|
    decreases k
  {
    if k > 0 {
      assert Lower(s[i]) == units[k][0];
      assert !StartsWithCi(s, i, units[0]);
      assert DistinctHeads(units[1..]) by {
        forall j | 0 <= j < |units| - 1 ensures units[1..][j] == units[j + 1] { }
      }
      UnitAtOf(s, i, units[1..], k - 1);
    }
  }

  /** No alternative starts at a character none of them starts with. */
  lemma {:induction false} UnitAtNone(s: string, i: nat, units: seq<string>)
    requires i < |s|
    requires forall k :: 0 <= k < |units| ==> |units[k]| > 0 && units[k][0] != Lower(s[i])
    ensures UnitAt(s, i, units) == 0
    decreases |units|
  {
    if |units| > 0 {
      assert !StartsWithCi(s, i, units[0]);
      UnitAtNone(s, i, units[1..]);
    }
  }

  lemma UnitHeads()
    ensures DistinctHeads(AngleUnits) && DistinctHeads(BlurUnits) && DistinctHeads(ShadowUnits)
  {
  }

  /** Angle unit `k` written at `b` is measured as itself. */
  lemma AngleUnitAt(s: string, b: nat, k: nat)
    requires k < |AngleUnits| && b + |AngleUnits[k]| <= |s|
    requires s[b..b + |AngleUnits[k]|] == AngleUnits[k]
    ensures UnitAt(s, b, AngleUnits) == |AngleUnits[k]| > 0
    ensures !IsNumChar(AngleUnits[k][0])
  {
    UnitHeads();
    assert NoCapitals(AngleUnits[k]);
    StartsWithCiOfSlice(s, b, AngleUnits[k]);
    UnitAtOf(s, b, AngleUnits, k);
  }

  /** A blur unit written at `b`, or none before the `)`, is measured as itself. */
  lemma BlurUnitAt(s: string, b: nat, unit: string)
    requires unit == "" || unit in BlurUnits
    requires b + |unit| < |s| && s[b..b + |unit|] == unit && s[b + |unit|] == ')'
    ensures UnitAt(s, b, BlurUnits) == |unit|
    ensures |unit| == 0 || !IsNumChar(unit[0])
  {
    UnitHeads();
    if unit == "" {
      UnitAtNone(s, b, BlurUnits);
    } else {
      var k :| 0 <= k < |BlurUnits| && BlurUnits[k] == unit;
      assert NoCapitals(unit);
      StartsWithCiOfSlice(s, b, unit);
      UnitAtOf(s, b, BlurUnits, k);
    }
  }

  /** The unit alternatives contain no capital letter, so each text reads as itself. */
  predicate NoCapitals(u: string) {
    forall k :: 0 <= k < |u| ==> !('A' <= u[k] <= 'Z')
  }

  /** Plain lower-case text at `i` matches itself case-insensitively. */
  lemma StartsWithCiOfSlice(s: string, i: nat, u: string)
    requires i + |u| <= |s| && s[i..i + |u|] == u && NoCapitals(u)
    ensures StartsWithCi(s, i, u)
  {
    forall k | 0 <= k < |u| ensures Lower(s[i + k]) == u[k] {
      assert s[i + k] == u[k];
    }
  }

  /** The text `name(digits unit)`, as a stylesheet author writes hue-rotate or blur. */
  function UnitText(g: Pattern, n: nat, unit: string): string {
    Name(g) + "(" + NatToDigits(n) + unit + ")"
  }

  /** Where the pieces of `UnitText` sit. */
  lemma UnitTextPieces(g: Pattern, n: nat, unit: string)
    ensures var s := UnitText(g, n, unit);
            var a := ArgsStart(g, 0);
            var b := a + |NatToDigits(n)|;
            && OpensAt(g, s, 0) && |s| == b + |unit| + 1 && s[b + |unit|] == ')'
            && s[a..b] == NatToDigits(n) && (forall k :: a <= k < b ==> IsDigit(s[k]))
            && s[b..b + |unit|] == unit
  {
    var s := UnitText(g, n, unit);
    var ds := NatToDigits(n);
    var b := ArgsStart(g, 0) + |ds|;
    assert s == (Name(g) + "(") + (ds + unit + ")");
    OpensAtName(g, s, ds + unit + ")");
    PiecesAfter(s, Name(g) + "(", ds, unit);
    forall k | 0 <= k < |unit| ensures s[b + k] == unit[k] { }
  }

  /** Digits on `[a, b)`, then `unit`, then `)`: the runs a unit pattern measures. */
  lemma UnitRuns(s: string, a: nat, b: nat, n: nat, unit: string)
    requires a < b && |s| == b + |unit| + 1 && s[b + |unit|] == ')'
    requires s[a..b] == NatToDigits(n) && (forall k :: a <= k < b ==> IsDigit(s[k]))
    requires s[b..b + |unit|] == unit && (|unit| == 0 || !IsNumChar(unit[0]))
    ensures Span(s, a, IsSpace) == a && Span(s, a, IsNumChar) == b
    ensures ParseDecimal(s[a..b]) == Num(n as real) && ClosesAt(s, b + |unit|)
  {
    assert Span(s, a, IsSpace) == a && Span(s, a, IsNumChar) == b by {
      assert !IsNumChar(s[b]) by {
        if |unit| > 0 { assert s[b] == unit[0]; }
      }
      SpanRun(s, a, a, IsSpace);
      SpanRun(s, a, b, IsNumChar);
    }
    assert ClosesAt(s, b + |unit|) by {
      SpanRun(s, b + |unit|, b + |unit|, IsSpace);
    }
    ParseDigitsAt(s, a, b, n);
  }

  /** How `HueRotateAt` reads a text whose runs are known. */
  lemma HueRotateAtOfRuns(s: string, b: nat, u: nat, v: JsNum)
    requires OpensAt(HueRotateG, s, 0) && ArgsStart(HueRotateG, 0) < b && b + u <= |s|
    requires Span(s, ArgsStart(HueRotateG, 0), IsSpace) == ArgsStart(HueRotateG, 0)
    requires Span(s, ArgsStart(HueRotateG, 0), IsNumChar) == b
    requires ParseDecimal(s[ArgsStart(HueRotateG, 0)..b]) == v && ClosesAt(s, b + u)
    requires UnitAt(s, b, AngleUnits) == u > 0
    ensures HueRotateAt(s, 0) == Some(HueRotateCall(v, s[b..b + u]))
  {
    var a := Span(s, ArgsStart(HueRotateG, 0), IsSpace);
    assert Span(s, a, IsNumChar) == b && b > a;
    assert HueRotateAt(s, 0) == Some(HueRotateCall(ParseDecimal(s[a..b]), s[b..b + u]));
  }

  /** How `BlurAt` reads a text whose runs are known. */
  lemma BlurAtOfRuns(s: string, b: nat, u: nat, v: JsNum)
    requires OpensAt(BlurG, s, 0) && ArgsStart(BlurG, 0) < b && b + u <= |s|
    requires Span(s, ArgsStart(BlurG, 0), IsSpace) == ArgsStart(BlurG, 0)
    requires Span(s, ArgsStart(BlurG, 0), IsNumChar) == b
    requires ParseDecimal(s[ArgsStart(BlurG, 0)..b]) == v && ClosesAt(s, b + u)
    requires UnitAt(s, b, BlurUnits) == u
    ensures BlurAt(s, 0) == Some(BlurCall(v, s[b..b + u]))
  {
    var a := Span(s, ArgsStart(BlurG, 0), IsSpace);
    assert Span(s, a, IsNumChar) == b && b > a;
    assert BlurAt(s, 0) == Some(BlurCall(ParseDecimal(s[a..b]), s[b..b + u]));
  }

  /** Reading back `hue-rotate(digits unit)` for each angle unit. */
  lemma HueRotateAtOfText(n: nat, k: nat)
    requires k < |AngleUnits|
    ensures HueRotateAt(UnitText(HueRotateG, n, AngleUnits[k]), 0)
         == Some(HueRotateCall(Num(n as real), AngleUnits[k]))
  {
    UnitTextPieces(HueRotateG, n, AngleUnits[k]);
    HueRotateAtOfPlaces(UnitText(HueRotateG, n, AngleUnits[k]),
                        ArgsStart(HueRotateG, 0) + |NatToDigits(n)|, n, k);
  }

  /** `hue-rotate(`, the digits of `n` up to `b`, angle unit `k`, then `)`. */
  lemma HueRotateAtOfPlaces(s: string, b: nat, n: nat, k: nat)
    requires k < |AngleUnits| && ArgsStart(HueRotateG, 0) < b
    requires OpensAt(HueRotateG, s, 0) && |s| == b + |AngleUnits[k]| + 1 && s[b + |AngleUnits[k]|] == ')'
    requires s[ArgsStart(HueRotateG, 0)..b] == NatToDigits(n)
    requires forall m :: ArgsStart(HueRotateG, 0) <= m < b ==> IsDigit(s[m])
    requires s[b..b + |AngleUnits[k]|] == AngleUnits[k]
    ensures HueRotateAt(s, 0) == Some(HueRotateCall(Num(n as real), AngleUnits[k]))
  {
    var unit := AngleUnits[k];
    AngleUnitAt(s, b, k);
    UnitRuns(s, ArgsStart(HueRotateG, 0), b, n, unit);
    HueRotateAtOfRuns(s, b, |unit|, Num(n as real));
  }

  /** Reading back `blur(digits unit)`, the unit being a blur unit or nothing. */
  lemma BlurAtOfText(n: nat, unit: string)
    requires unit == "" || unit in BlurUnits
    ensures BlurAt(UnitText(BlurG, n, unit), 0) == Some(BlurCall(Num(n as real), unit))
  {
    UnitTextPieces(BlurG, n, unit);
    BlurAtOfPlaces(UnitText(BlurG, n, unit), ArgsStart(BlurG, 0) + |NatToDigits(n)|, n, unit);
  }

  /** `blur(`, the digits of `n` up to `b`, the unit, then `)`. */
  lemma BlurAtOfPlaces(s: string, b: nat, n: nat, unit: string)
    requires unit == "" || unit in BlurUnits
    requires ArgsStart(BlurG, 0) < b
    requires OpensAt(BlurG, s, 0) && |s| == b + |unit| + 1 && s[b + |unit|] == ')'
    requires s[ArgsStart(BlurG, 0)..b] == NatToDigits(n)
    requires forall m :: ArgsStart(BlurG, 0) <= m < b ==> IsDigit(s[m])
    requires s[b..b + |unit|] == unit
    ensures BlurAt(s, 0) == Some(BlurCall(Num(n as real), unit))
  {
    BlurUnitAt(s, b, unit);
    UnitRuns(s, ArgsStart(BlurG, 0), b, n, unit);
    BlurAtOfRuns(s, b, |unit|, Num(n as real));
  }

  /** `s.match` finds the written hue-rotate call at the start of the text. */
  lemma SearchOfHueRotateText(n: nat, k: nat)
    requires k < |AngleUnits|
    ensures Search(HueRotateG, UnitText(HueRotateG, n, AngleUnits[k]))
         == Some(HueRotateCall(Num(n as real), AngleUnits[k]))
  {
    var s := UnitText(HueRotateG, n, AngleUnits[k]);
    HueRotateAtOfText(n, k);
    assert MatchAt(HueRotateG, s, 0) == HueRotateAt(s, 0);
  }

  /** `s.match` finds the written blur call at the start of the text. */
  lemma SearchOfBlurText(n: nat, unit: string)
    requires unit == "" || unit in BlurUnits
    ensures Search(BlurG, UnitText(BlurG, n, unit)) == Some(BlurCall(Num(n as real), unit))
  {
    var s := UnitText(BlurG, n, unit);
    BlurAtOfText(n, unit);
    assert MatchAt(BlurG, s, 0) == BlurAt(s, 0);
  }

  // ---------------------------------------------------------------------
  // Reading back a written drop-shadow

  /** Optional whitespace, digits and a unit, followed by `rest`. */
  function LengthThen(sp: string, n: nat, unit: string, rest: string): string {
    sp + NatToDigits(n) + unit + rest
  }

  /** `drop-shadow(X Y R color)` with each length written as digits and a
      unit, the way a stylesheet author writes it. */
  function DropShadowText(x: nat, ux: string, y: nat, uy: string, r: nat, ur: string, color: string): string {
    Name(DropShadowG) + "("
      + LengthThen("", x, ux, LengthThen(" ", y, uy, LengthThen(" ", r, ur, " " + color + ")")))
  }

  /** A colour the pattern reads back whole: colour characters only, and
      starting neither with a digit (it would be read as a spread) nor with
      whitespace. */
  predicate IsColorText(c: string) {
    && (forall k :: 0 <= k < |c| ==> IsColorChar(c[k]))
    && (|c| > 0 ==> !IsNumChar(c[0]) && !IsSpace(c[0]))
  }

  /** The four pieces of `s[i..]`, cut at `j1`, `j2` and `j3`. */
  lemma SuffixPieces(s: string, i: nat, p: string, q: string, w: string, rest: string,
                     j1: nat, j2: nat, j3: nat)
    requires i <= |s| && s[i..] == p + q + w + rest
    requires j1 == i + |p| && j2 == j1 + |q| && j3 == j2 + |w|
    ensures j3 <= |s| && |s| == j3 + |rest|
    ensures s[i..j1] == p && s[j1..j2] == q && s[j2..j3] == w && s[j3..] == rest
  {
    var t := s[i..];
    assert t[..|p|] == p && t[|p|..|p| + |q|] == q;
    assert t[|p| + |q|..|p| + |q| + |w|] == w && t[|p| + |q| + |w|..] == rest;
  }

  /** Spaces on `[i, a)`, digits on `[a, b)`, then shadow unit `k`: the runs `LengthAt` measures. */
  lemma LengthRuns(s: string, i: nat, a: nat, b: nat, n: nat, k: nat)
    requires i <= a < b && k < |ShadowUnits| && b + |ShadowUnits[k]| <= |s|
    requires forall m :: i <= m < a ==> IsSpace(s[m])
    requires s[a..b] == NatToDigits(n) && (forall m :: a <= m < b ==> IsDigit(s[m]))
    requires s[b..b + |ShadowUnits[k]|] == ShadowUnits[k]
    ensures Span(s, i, IsSpace) == a && Span(s, a, IsNumChar) == b
    ensures ParseDecimal(s[a..b]) == Num(n as real)
    ensures UnitAt(s, b, ShadowUnits) == |ShadowUnits[k]|
  {
    assert Span(s, i, IsSpace) == a && Span(s, a, IsNumChar) == b by {
      assert s[b] == ShadowUnits[k][0];
      SpanRun(s, i, a, IsSpace);
      SpanRun(s, a, b, IsNumChar);
    }
    assert UnitAt(s, b, ShadowUnits) == |ShadowUnits[k]| by {
      UnitHeads();
      assert NoCapitals(ShadowUnits[k]);
      StartsWithCiOfSlice(s, b, ShadowUnits[k]);
      UnitAtOf(s, b, ShadowUnits, k);
    }
    ParseDigitsAt(s, a, b, n);
  }

  /** How `LengthAt` reads a text whose runs are known. */
  lemma LengthAtOfRuns(s: string, i: nat, a: nat, b: nat, u: nat)
    requires i <= a < b && b + u <= |s| && u > 0
    requires Span(s, i, IsSpace) == a && Span(s, a, IsNumChar) == b
    requires UnitAt(s, b, ShadowUnits) == u
    ensures LengthAt(s, i) == Some((ParseDecimal(s[a..b]), s[b..b + u], b + u))
  {
  }

  /** One written length, read back, and what follows it. */
  lemma LengthAtOf(s: string, i: nat, sp: string, n: nat, k: nat, rest: string, e: nat)
    requires i <= |s| && k < |ShadowUnits| && (sp == "" || sp == " ")
    requires s[i..] == LengthThen(sp, n, ShadowUnits[k], rest)
    requires e == i + |sp| + |NatToDigits(n)| + |ShadowUnits[k]|
    ensures LengthAt(s, i) == Some((Num(n as real), ShadowUnits[k], e))
    ensures e <= |s| && s[e..] == rest
  {
    var ds := NatToDigits(n);
    var u := ShadowUnits[k];
    var a := i + |sp|;
    var b := a + |ds|;
    SuffixPieces(s, i, sp, ds, u, rest, a, b, e);
    assert forall m :: i <= m < a ==> IsSpace(s[m]) by {
      forall m | i <= m < a ensures IsSpace(s[m]) { assert s[m] == s[i..a][m - i]; }
    }
    assert forall m :: a <= m < b ==> IsDigit(s[m]) by {
      forall m | a <= m < b ensures IsDigit(s[m]) { assert s[m] == s[a..b][m - a]; }
    }
    LengthAtOfPlaces(s, i, a, b, e, n, k);
  }

  /** Spaces on `[i, a)`, the digits of `n` on `[a, b)` and shadow unit `k` on `[b, e)`. */
  lemma LengthAtOfPlaces(s: string, i: nat, a: nat, b: nat, e: nat, n: nat, k: nat)
    requires i <= a < b <= e <= |s| && k < |ShadowUnits| && e == b + |ShadowUnits[k]|
    requires forall m :: i <= m < a ==> IsSpace(s[m])
    requires s[a..b] == NatToDigits(n) && (forall m :: a <= m < b ==> IsDigit(s[m]))
    requires s[b..e] == ShadowUnits[k]
    ensures LengthAt(s, i) == Some((Num(n as real), ShadowUnits[k], e))
  {
    assert ParseDecimal(s[a..b]) == Num(n as real) && UnitAt(s, b, ShadowUnits) == e - b
           && Span(s, i, IsSpace) == a && Span(s, a, IsNumChar) == b by {
      LengthRuns(s, i, a, b, n, k);
    }
    LengthAtOfRuns(s, i, a, b, e - b);
  }

  /** The written colour, read back: the spread group finds no number, and
      the colour runs to the closing parenthesis. */
  lemma ColorAtOf(s: string, i: nat, c: string)
    requires i <= |s| && s[i..] == " " + c + ")" && IsColorText(c)
    ensures LengthAt(s, i).None?
    ensures ColorAt(s, i) == Some(Trim(c))
  {
    assert |s| == i + |c| + 2 && s[i] == ' ' && s[|s| - 1] == ')';
    assert s[i + 1..|s| - 1] == c by {
      assert s[i..][1..|c| + 1] == c;
    }
    assert !IsSpace(s[i + 1]) && !IsNumChar(s[i + 1]) by {
      if |c| > 0 { assert s[i + 1] == c[0]; }
    }
    assert forall m :: i + 1 <= m < |s| ==> IsColorChar(s[m]) by {
      forall m | i + 1 <= m < |s| ensures IsColorChar(s[m]) {
        if m < |s| - 1 { assert s[m] == c[m - i - 1]; }
      }
    }
    SpanRun(s, i, i + 1, IsSpace);
    SpanRun(s, i + 1, i + 1, IsNumChar);
    SpanRun(s, i + 1, |s|, IsColorChar);
    assert LastClose(s, i + 1, |s|) == Some(|s| - 1);
    ColorAtOfRuns(s, i, i + 1, |s|, |s| - 1);
  }

  /** How `ColorAt` reads a text whose runs are known. */
  lemma ColorAtOfRuns(s: string, i: nat, a: nat, e: nat, k: nat)
    requires i <= a <= k < e <= |s|
    requires Span(s, i, IsSpace) == a && Span(s, a, IsColorChar) == e
    requires LastClose(s, a, e) == Some(k)
    ensures ColorAt(s, i) == Some(Trim(s[a..k]))
  {
  }

  /** How `DropShadowAt` reads a text whose groups are known. */
  lemma DropShadowAtOfGroups(s: string, lx: (JsNum, string, nat), ly: (JsNum, string, nat),
                             lr: (JsNum, string, nat), color: string)
    requires OpensAt(DropShadowG, s, 0)
    requires LengthAt(s, ArgsStart(DropShadowG, 0)) == Some(lx)
    requires lx.2 <= |s| && LengthAt(s, lx.2) == Some(ly)
    requires ly.2 <= |s| && LengthAt(s, ly.2) == Some(lr)
    requires lr.2 <= |s| && LengthAt(s, lr.2).None? && ColorAt(s, lr.2) == Some(color)
    ensures DropShadowAt(s, 0)
         == Some(DropShadowCall(lx.0, lx.1, ly.0, ly.1, lr.0, lr.1, NaN, None, color))
  {
  }

  /** Reading back `drop-shadow(X Y R color)`: the three lengths with their
      units, no spread, and the colour trimmed. */
  lemma DropShadowAtOfText(x: nat, kx: nat, y: nat, ky: nat, r: nat, kr: nat, color: string)
    requires kx < |ShadowUnits| && ky < |ShadowUnits| && kr < |ShadowUnits|
    requires IsColorText(color)
    ensures DropShadowAt(DropShadowText(x, ShadowUnits[kx], y, ShadowUnits[ky], r, ShadowUnits[kr], color), 0)
         == Some(DropShadowCall(Num(x as real), ShadowUnits[kx], Num(y as real), ShadowUnits[ky],
                                Num(r as real), ShadowUnits[kr], NaN, None, Trim(color)))
  {
    var ux, uy, ur := ShadowUnits[kx], ShadowUnits[ky], ShadowUnits[kr];
    var args := LengthThen("", x, ux, LengthThen(" ", y, uy, LengthThen(" ", r, ur, " " + color + ")")));
    var s := DropShadowText(x, ux, y, uy, r, ur, color);
    assert s == Name(DropShadowG) + "(" + args;
    OpensAtName(DropShadowG, s, args);
    assert s[ArgsStart(DropShadowG, 0)..] == args;
    DropShadowAtOfArgs(s, x, kx, y, ky, r, kr, color);
  }

  /** The drop-shadow groups read from the text after `drop-shadow(`. */
  lemma DropShadowAtOfArgs(s: string, x: nat, kx: nat, y: nat, ky: nat, r: nat, kr: nat, color: string)
    requires kx < |ShadowUnits| && ky < |ShadowUnits| && kr < |ShadowUnits|
    requires IsColorText(color) && OpensAt(DropShadowG, s, 0)
    requires ArgsStart(DropShadowG, 0) <= |s|
    requires s[ArgsStart(DropShadowG, 0)..]
          == LengthThen("", x, ShadowUnits[kx], LengthThen(" ", y, ShadowUnits[ky],
               LengthThen(" ", r, ShadowUnits[kr], " " + color + ")")))
    ensures DropShadowAt(s, 0)
         == Some(DropShadowCall(Num(x as real), ShadowUnits[kx], Num(y as real), ShadowUnits[ky],
                                Num(r as real), ShadowUnits[kr], NaN, None, Trim(color)))
  {
    var ux, uy, ur := ShadowUnits[kx], ShadowUnits[ky], ShadowUnits[kr];
    var r3 := " " + color + ")";
    var r2 := LengthThen(" ", r, ur, r3);
    var r1 := LengthThen(" ", y, uy, r2);
    var p := ArgsStart(DropShadowG, 0);
    var e1 := p + |NatToDigits(x)| + |ux|;
    var e2 := e1 + 1 + |NatToDigits(y)| + |uy|;
    var e3 := e2 + 1 + |NatToDigits(r)| + |ur|;
    assert LengthAt(s, p) == Some((Num(x as real), ux, e1)) && e1 <= |s| && s[e1..] == r1 by {
      LengthAtOf(s, p, "", x, kx, r1, e1);
    }
    assert LengthAt(s, e1) == Some((Num(y as real), uy, e2)) && e2 <= |s| && s[e2..] == r2 by {
      LengthAtOf(s, e1, " ", y, ky, r2, e2);
    }
    assert LengthAt(s, e2) == Some((Num(r as real), ur, e3)) && e3 <= |s| && s[e3..] == r3 by {
      LengthAtOf(s, e2, " ", r, kr, r3, e3);
    }
    assert LengthAt(s, e3).None? && ColorAt(s, e3) == Some(Trim(color)) by {
      ColorAtOf(s, e3, color);
    }
    DropShadowAtOfGroups(s, (Num(x as real), ux, e1), (Num(y as real), uy, e2),
                         (Num(r as real), ur, e3), Trim(color));
  }

  /** `s.match` finds the written drop-shadow at the start of the text. */
  lemma SearchOfDropShadowText(x: nat, kx: nat, y: nat, ky: nat, r: nat, kr: nat, color: string)
    requires kx < |ShadowUnits| && ky < |ShadowUnits| && kr < |ShadowUnits|
    requires IsColorText(color)
    ensures Search(DropShadowG, DropShadowText(x, ShadowUnits[kx], y, ShadowUnits[ky], r, ShadowUnits[kr], color))
         == Some(DropShadowCall(Num(x as real), ShadowUnits[kx], Num(y as real), ShadowUnits[ky],
                                Num(r as real), ShadowUnits[kr], NaN, None, Trim(color)))
  {
    var s := DropShadowText(x, ShadowUnits[kx], y, ShadowUnits[ky], r, ShadowUnits[kr], color);
    DropShadowAtOfText(x, kx, y, ky, r, kr, color);
    assert MatchAt(DropShadowG, s, 0) == DropShadowAt(s, 0);
  }
}
