/** `convert(value)` (index.js:431-524): every pattern is tried in a fixed
    order against one fragment and each match overwrites the result of the
    previous ones, so the last matching pattern decides. `Success(None)` is
    the `undefined` returned when nothing matches; `Failure(c)` is the
    exception drop-shadow raises for a colour onecolor cannot read. */
module Convert {
  import opened Wrappers
  import opened Numbers
  import opened Grammar
  import opened Filters

  /** The registry call a match leads to (the argument lists of index.js:445-519). */
  function Apply(f: Format, inv: Invocation): (r: Result<Props, string>)
    ensures r.Failure? ==> inv.DropShadowCall?
    ensures r.Success? && inv.NoneCall? ==> r.value == None_()
    ensures r.Success? && !inv.NoneCall? ==> WellFormed(r.value)
  {
    match inv
    case NoneCall => Success(None_())
    case AmountCall(g, amount, unit) =>
      Success(match g
        case GrayscaleG => Grayscale(f, amount, unit)
        case SepiaG => Sepia(f, amount, unit)
        case SaturateG => Saturate(f, amount, unit)
        case InvertG => Invert(f, amount, unit)
        case OpacityG => Opacity(f, amount, unit)
        case BrightnessG => Brightness(f, amount, unit)
        case ContrastG => Contrast(f, amount, unit)
        // The grammar pairs amount arguments only with the seven patterns
        // above (`Grammar.AmountAt` requires `IsAmountPattern`); `{}` stands
        // for the combinations no pattern produces.
        case NoneG | HueRotateG | BlurG | DropShadowG => Empty)
    case HueRotateCall(angle, unit) => Success(HueRotate(f, angle, Some(unit)))
    case BlurCall(radius, unit) => Success(Blur(f, radius, Some(unit)))
    case DropShadowCall(x, ux, y, uy, r, ur, spread, uSpread, color) =>
      DropShadow(f, x, Some(ux), y, Some(uy), r, Some(ur), spread, uSpread, color)
  }

  /** What `value.match` returns for each pattern of one fragment. */
  type Finder = Pattern -> Option<Invocation>

  function Matcher(value: string): Finder {
    g => Search(g, value)
  }

  /** A finder whose patterns other than drop-shadow never yield drop-shadow
      arguments, as every `value.match` with the grammars of index.js:438-506. */
  predicate Honest(found: Finder) {
    forall g :: g != DropShadowG && found(g).Some? ==> !found(g).value.DropShadowCall?
  }

  lemma MatcherHonest(value: string)
    ensures Honest(Matcher(value))
  {
    forall g | g != DropShadowG && Matcher(value)(g).Some?
      ensures !Matcher(value)(g).value.DropShadowCall?
    {
      assert Matcher(value)(g) == Search(g, value);
    }
  }

  /** One `fmatch = value.match(...); if (fmatch !== null) properties = ...` step. */
  function Step(f: Format, found: Finder, acc: Result<Option<Props>, string>, g: Pattern)
    : Result<Option<Props>, string>
  {
    if acc.Failure? then acc
    else match found(g)
      case None => acc
      case Some(inv) =>
        match Apply(f, inv)
        case Failure(e) => Failure(e)
        case Success(p) => Success(Some(p))
  }

  /** The steps for `gs`, taken first to last. */
  function Run(f: Format, found: Finder, gs: seq<Pattern>): Result<Option<Props>, string>
    decreases |gs|
  {
    if |gs| == 0 then Success(None)
    else Step(f, found, Run(f, found, gs[..|gs| - 1]), gs[|gs| - 1])
  }

  /** `convert(value)`: `undefined` exactly when no pattern matches, and an
      exception only from a fragment the drop-shadow pattern matches.
      `ConvertIsLastMatch` states which record it returns. */
  function Convert(f: Format, value: string): (r: Result<Option<Props>, string>)
    ensures r == Success(None) <==> forall k :: 0 <= k < |Order| ==> Search(Order[k], value).None?
    ensures r.Failure? ==> Search(DropShadowG, value).Some?
  {
    RunOfOrder(f, value);
    Run(f, Matcher(value), Order)
  }

  /** The last pattern of `gs` that matches, searching from the end. */
  function LastMatch(found: Finder, gs: seq<Pattern>): (r: Option<Invocation>)
    decreases |gs|
  {
    if |gs| == 0 then None
    else match found(gs[|gs| - 1])
      case Some(inv) => Some(inv)
      case None => LastMatch(found, gs[..|gs| - 1])
  }

  /** `LastMatch` is the match of a pattern after which no pattern of `gs`
      matches, and it is absent exactly when no pattern matches. */
  lemma {:induction false} LastMatchIsLast(found: Finder, gs: seq<Pattern>)
    ensures LastMatch(found, gs).None? <==> forall k :: 0 <= k < |gs| ==> found(gs[k]).None?
    ensures LastMatch(found, gs).Some? ==>
              exists k :: 0 <= k < |gs| && found(gs[k]) == LastMatch(found, gs)
                          && forall m :: k < m < |gs| ==> found(gs[m]).None?
    decreases |gs|
  {
    if |gs| > 0 {
      var init := gs[..|gs| - 1];
      LastMatchIsLast(found, init);
      assert forall k :: 0 <= k < |init| ==> gs[k] == init[k];
      if found(gs[|gs| - 1]).None? && LastMatch(found, init).Some? {
        var k :| 0 <= k < |init| && found(init[k]) == LastMatch(found, init)
                 && forall m :: k < m < |init| ==> found(init[m]).None?;
        assert found(gs[k]) == LastMatch(found, gs);
      }
    }
  }

  /** Lifts a registry result to `convert`'s result type. */
  function Lift(r: Result<Props, string>): Result<Option<Props>, string> {
    match r
    case Success(p) => Success(Some(p))
    case Failure(e) => Failure(e)
  }

  /** Without drop-shadow nothing can throw. */
  lemma {:induction false} RunWithoutShadowSucceeds(f: Format, found: Finder, gs: seq<Pattern>)
    requires Honest(found) && DropShadowG !in gs
    ensures Run(f, found, gs).Success?
    decreases |gs|
  {
    if |gs| > 0 {
      var init := gs[..|gs| - 1];
      assert forall g :: g in init ==> g in gs;
      RunWithoutShadowSucceeds(f, found, init);
    }
  }

  /** Evaluating the patterns in order with overwriting equals taking the
      last pattern that matches, as long as only the last pattern can throw. */
  lemma {:induction false} RunIsLastMatch(f: Format, found: Finder, gs: seq<Pattern>)
    requires Honest(found)
    requires |gs| > 0 ==> DropShadowG !in gs[..|gs| - 1]
    ensures Run(f, found, gs) == match LastMatch(found, gs)
                                 case None => Success(None)
                                 case Some(inv) => Lift(Apply(f, inv))
    decreases |gs|
  {
    if |gs| > 0 {
      var init := gs[..|gs| - 1];
      var g := gs[|gs| - 1];
      if |init| > 0 {
        assert init[..|init| - 1] == gs[..|gs| - 2];
        assert forall x :: x in init[..|init| - 1] ==> x in init;
      }
      RunIsLastMatch(f, found, init);
      match found(g)
      case None =>
      case Some(inv) =>
        RunWithoutShadowSucceeds(f, found, init);
        match Apply(f, inv)
        case Success(p) =>
        case Failure(e) =>
    }
  }

  /** `convert` returns the registry result of the last pattern in the order
      none, grayscale, ..., blur, drop-shadow that matches the fragment, and
      `undefined` exactly when no pattern matches. */
  lemma ConvertIsLastMatch(f: Format, value: string)
    ensures Convert(f, value) == match LastMatch(Matcher(value), Order)
                                 case None => Success(None)
                                 case Some(inv) => Lift(Apply(f, inv))
    ensures Convert(f, value) == Success(None)
            <==> forall k :: 0 <= k < |Order| ==> Search(Order[k], value).None?
  {
    RunOfOrder(f, value);
  }

  /** The facts behind `Convert`'s contract, stated on the fold itself. */
  lemma RunOfOrder(f: Format, value: string)
    ensures Run(f, Matcher(value), Order) == match LastMatch(Matcher(value), Order)
                                             case None => Success(None)
                                             case Some(inv) => Lift(Apply(f, inv))
    ensures Run(f, Matcher(value), Order) == Success(None)
            <==> forall k :: 0 <= k < |Order| ==> Search(Order[k], value).None?
    ensures Run(f, Matcher(value), Order).Failure? ==> Search(DropShadowG, value).Some?
  {
    var gs := Order;
    var found := Matcher(value);
    assert gs[..|gs| - 1] == [NoneG, GrayscaleG, SepiaG, SaturateG, HueRotateG, InvertG,
                              OpacityG, BrightnessG, ContrastG, BlurG];
    MatcherHonest(value);
    RunIsLastMatch(f, found, gs);
    LastMatchIsLast(found, gs);
    assert forall k :: 0 <= k < |gs| ==> found(gs[k]) == Search(gs[k], value);
    if Run(f, found, gs).Failure? {
      var k :| 0 <= k < |gs| && found(gs[k]) == LastMatch(found, gs)
               && forall m :: k < m < |gs| ==> found(gs[m]).None?;
      assert LastMatch(found, gs).value.DropShadowCall?;
      assert gs[k] == DropShadowG;
    }
  }

  /** What a fragment contributes: the `none` lists, or lists that are markup
      and legacy tokens. */
  lemma ConvertResultShape(f: Format, value: string)
    ensures Convert(f, value).Success? && Convert(f, value).value.Some? ==>
              var p := Convert(f, value).value.value;
              p == None_() || WellFormed(p)
  {
    ConvertIsLastMatch(f, value);
  }
}
