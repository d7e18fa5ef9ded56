# pleeease-filters in Dafny

A model of the core of pleeease-filters, the PostCSS plugin that rewrites a
CSS `filter` declaration into fallbacks: an inline SVG filter
(`url('data:image/svg+xml;…#filter')`) and, on request, the legacy
`progid:DXImageTransform.Microsoft.*` filters of old Internet Explorer.
Everything modelled lives in `index.js`:

- `units.dfy`: the unit helpers `length` and `angle`.
- `svg.dfy`: the SVG serialisers `createSVGElement` and `createSVG`.
- `matrix.dfy`: the 3×3 colour matrices of grayscale, sepia and saturate.
- `filters.dfy`: the filter registry, one function per keyword. Each returns the
  three optional lists `filtersCSS`, `filtersSVG` and `filtersIE`
  (`Props.css`, `Props.svg` and `Props.ie`). An absent list is `None`, so an
  absent list stays distinct from an empty one.
- `grammar.dfy`: one recogniser per regular expression of `convert`. Each is
  written by hand over `seq<char>`, with `/i` case folding and JavaScript's
  `\s`. Leftmost-match search is included.
- `decimal.dfy`: `parseFloat` applied to a `[0-9.]+` capture.
- `convert.dfy`: the `convert` dispatcher.
- `declaration.dfy`: the pure part of the `Declaration.filter` handler. This is
  the split on `/\)\s+(?!\))/`, the re-appended `)`, the merge of the
  fragments' lists, and the decision to insert the IE and SVG declarations.
- `numbers.dfy`, `text.dfy`, `wrappers.dfy`: JavaScript numbers (`NaN` and
  falsiness), characters and strings, `Option`/`Result`.

Two services outside the code are parameters of type `Format`:

- `num`: how JavaScript prints a number into a template string.
- `cssa`: onecolor's `oneColor(c).cssa()`. It gives `None` when onecolor
  cannot read `c`. The source then throws a `TypeError`, which the model returns
  as `Failure(c)`.

JavaScript numbers are `real` plus `NaN`. `x || d` is modelled exactly:
`NaN` and `0` are falsy. `Math.round` rounds half up.

Five behaviours of the code that are easy to misread:

- `convert` assigns `properties` after every successful match. So the **last**
  matching pattern decides, not the first (`Convert.ConvertIsLastMatch`).
- drop-shadow refuses only a **truthy** spread. A spread of `0` is accepted,
  and so is one that is absent (`NaN`).
- drop-shadow can throw, when onecolor rejects the colour text. So `convert`
  is not total: it returns `Failure`.
- saturate divides by 100 exactly when the `%` group was captured, like every
  other amount filter. The pattern captures no other unit.
- a zero amount is falsy, so it takes the filter's default before the `%`
  division: `opacity(0)` is opacity 1 and `opacity(0%)` is 0.01
  (`Filters.ZeroPercent`).

The registry's saturate draws its matrix exactly as written, including the
coefficient listed under "## Findings". `Filters.SaturateCorrected` is the
same filter with the coefficient corrected.

## Model

| member | source | states |
|---|---|---|
| Numbers.OrDefault | index.js:79 | `x \|\| d`: `NaN` and `0` give the default, any other number is kept |
| Numbers.Round | index.js:382-384 | `Math.round` gives an integer within half a unit of its argument, and maps `NaN` to `NaN` |
| Units.Length | index.js:33-42 | `em` and `rem` multiply by 16; `px`, the empty unit, the space marker and no unit leave the amount unchanged |
| Units.Angle | index.js:43-55 | `grad` gives 180·a/200, `rad` gives 180·a/π, `turn` gives 360·a, and any other unit leaves the amount in degrees |
| Units.FullCircle | index.js:43-55 | for every t, `400·t` grad, `t` turn, `2π·t` rad, `360·t` deg and a bare `360·t` all convert to the same `360·t` degrees |
| Units.RelativeLengths | index.js:33-42 | for every a, `a` em and `a` rem are the same length as `16·a` px, and the empty unit, the space marker and no unit all leave `a` unchanged |
| Svg.AttrsAppend | index.js:19-21 | attributes are rendered in insertion order: rendering a concatenation concatenates the renderings |
| Svg.AttrsLength | index.js:19-21 | the rendered attribute text is as long as the sum of ` k="v"` over the attributes |
| Svg.CreateSvgElement | index.js:17-30 | `<tag` then the attributes, then ` />` without children or `>`, the concatenated children and `</tag>` with them |
| Svg.CreateSvg | index.js:5-15 | the document is the fixed `<svg xmlns=…><filter id="filter">` prefix, then the elements concatenated in order, then `</filter></svg>` |
| Svg.CreateSvgRoundTrip | index.js:5-15 | stripping the prefix and suffix from `createSVG(els)` gives back exactly the concatenation of `els` |
| Svg.CreateSvgAppend | index.js:10 | the elements are concatenated in order with no separator |
| Text.TrimStart | index.js:516 | removes exactly the leading whitespace run |
| Text.TrimEnd | index.js:516 | removes exactly the trailing whitespace run |
| Text.Trim | index.js:516 | `.trim()` returns a slice of its argument with only whitespace cut before and after it, and the slice neither starts nor ends with whitespace |
| Text.ConcatAppend | index.js:10 | `join('')` of a concatenation is the concatenation of the joins |
| Text.JoinStartsWithFirst | index.js:560 | `join(' ')` of a non-empty list starts with its first token |
| ColorMatrix.GrayscalePreservesGrey | index.js:94-102 | every row of the grayscale matrix sums to 1, so grey stays grey at every amount |
| ColorMatrix.GrayscaleZeroIsIdentity | index.js:94-102 | `grayscale(0)` is the identity matrix |
| ColorMatrix.GrayscaleOneIsLuminance | index.js:94-102 | `grayscale(1)` replaces every channel by the Rec. 709 luminance 0.2126R + 0.7152G + 0.0722B |
| ColorMatrix.Sepia | index.js:129-137 | `sepia(0)` is the identity and `sepia(1)` is the full sepia tone matrix |
| ColorMatrix.SaturateAsWritten | index.js:164-172 | the matrix as written keeps the red and blue rows summing to 1 |
| ColorMatrix.SaturateAsWrittenNotIdentity | index.js:168 | as written, `saturate(1)` is not the identity (green diagonal 1.01), and no non-zero amount preserves grey |
| ColorMatrix.Saturate | index.js:164-172 | with the green coefficient corrected to 0.285: grey is preserved, `saturate(1)` is the identity, and `saturate(0)` makes all three rows equal (full desaturation) |
| ColorMatrix.SaturateCorrectionIsLocal | index.js:168 | the correction changes only the green diagonal, by 0.01·amount |
| Filters.Legacy | index.js:142 | every `progid:DXImageTransform.Microsoft.` call is a legacy token |
| Filters.Normalize | index.js:79-83 | a falsy amount becomes the default; a captured unit then divides by 100, so the result times 100 is the parsed number |
| Filters.Element | index.js:17-30 | a registry primitive is markup starting with `<` |
| Filters.Parent | index.js:17-30 | a registry primitive with children is markup starting with `<` |
| Filters.MatrixElement | index.js:91-103 | a colour matrix renders as markup starting with `<` |
| Filters.Transfer | index.js:233-235 | a component transfer renders as markup starting with `<` |
| Filters.None_ | index.js:62-75 | `none` gives CSS `['none']` and SVG `['none']`, and no IE list |
| Filters.Grayscale | index.js:78-110 | CSS `grayscale(a)` and one grayscale matrix; the IE list is `['gray']` iff a ≥ 0.5, and `[]` iff a < 0.5 |
| Filters.Sepia | index.js:113-145 | CSS `sepia(a)` and one sepia matrix; the IE list is gray plus Light iff a ≥ 0.5, and `[]` iff a < 0.5 |
| Filters.Saturate | index.js:148-180 | CSS `saturate(a)` with default 1, one saturate matrix with the coefficients as written (green diagonal `0.715 + 0.295·a`), and no IE list |
| Filters.SaturateCorrected | index.js:148-180 | the same CSS text and absent IE list, with the matrix whose green coefficient is corrected to 0.285 |
| Filters.HueRotate | index.js:183-205 | the angle is converted to degrees, giving CSS `hue-rotate(Ndeg)` and one `hueRotate` matrix of N; no IE list |
| Filters.HueRotateUnitsAgree | index.js:183-187 | for every t, `t` turn, `400·t` grad, `2π·t` rad and a bare `360·t` give the same record as `360·t` deg |
| Filters.Invert | index.js:208-242 | three `a, 1-a` channel tables; the IE list is `['invert']` iff a ≥ 0.5, and `[]` iff a < 0.5 |
| Filters.Opacity | index.js:245-271 | CSS `opacity(a)` with default 1 and one alpha table `0 a`; no IE list |
| Filters.Brightness | index.js:274-308 | three linear channels of slope a; exactly one Light token |
| Filters.ContrastIntercept | index.js:327 | the contrast intercept keeps mid-grey fixed: 0.5·a + intercept = 0.5 |
| Filters.Contrast | index.js:311-348 | three linear channels of slope a with the mid-grey-preserving intercept; no IE list |
| Filters.Blur | index.js:351-375 | the result is `{}` exactly when the unit is empty and the amount is non-zero; otherwise it has one CSS, one SVG and one IE entry, all carrying `length(amount, unit)` |
| Filters.RoundOrZero | index.js:382-384 | `Math.round(x) \|\| 0` is an integer within half a unit of x, and 0 for `NaN` |
| Filters.ShadowColor | index.js:385 | the colour defaults to `#000000` when empty and is kept otherwise |
| Filters.ShadowChain | index.js:401-422 | exactly five primitives, each markup |
| Filters.ShadowTokens | index.js:425 | exactly two legacy tokens: `…Glow(color=c,strength=0)`, then `…Shadow(color=c,strength=0)` |
| Filters.ShadowProps | index.js:397-425 | one CSS string with the offsets, radius and colour, the five-primitive chain, and the two IE tokens |
| Filters.DropShadow | index.js:378-428 | `{}` iff a space-marked slot has a non-zero rounded value or the spread is truthy; otherwise it throws exactly when onecolor rejects the colour, and else gives the shadow lists built from the rounded lengths in pixels |
| Filters.PercentIsFraction | index.js:79-83 | for every amount filter and every non-zero N, `N%` gives the same record as `N/100` without a unit |
| Filters.ZeroPercent | index.js:246-250 | at zero the spellings part: for opacity, saturate, brightness and contrast, `0%` gives the record of 0.01 and a bare `0` that of 1; for grayscale, sepia and invert `0%` and `0` agree |
| Filters.MissingAmountIsNeutral | index.js:79-80 | with a missing or zero amount, grayscale and sepia draw the identity matrix and give an empty IE list; saturate falls back to 1, where the matrix as written is `SaturateAsWritten(1)` (not the identity) and the corrected one is the identity |
| Decimal.ParseDecimal | index.js:445 | `parseFloat` of a `[0-9.]` run is `NaN` exactly when the text does not start with a digit or with a dot followed by a digit; otherwise it is non-negative |
| Decimal.DigitsValueOfNatToDigits | index.js:445 | reading the decimal digits of n gives n back |
| Decimal.ParseDecimalOfNat | index.js:445 | `parseFloat` of the digits of n is n |
| Decimal.ParseDecimalOfFraction | index.js:445 | `parseFloat("w.f…")` is w + f/10^\|f\| when no digit follows; either part may be empty but not both, so `.5` reads as 0.5 |
| Decimal.ParseDecimalStopsAtSecondDot | index.js:445 | `parseFloat` ignores everything from a second dot on |
| Grammar.UnitAtIsAlternative | index.js:464 | a unit is recognised only if the text starts with one of the alternatives, ignoring case, and 0 means that no non-empty alternative fits |
| Grammar.UnitAtOf | index.js:464 | when the alternatives start with different characters, a text holding alternative k is measured as exactly that alternative |
| Grammar.AmountAt | index.js:443-447 | an amount pattern yields a call of that same pattern, whose unit is absent or `%` |
| Grammar.HueRotateAt | index.js:464-468 | hue-rotate matches only with a non-empty angle unit |
| Grammar.BlurAt | index.js:499-503 | the blur pattern yields a blur call |
| Grammar.LengthAt | index.js:506 | a drop-shadow length group consumes at least one character and captures a non-empty unit |
| Grammar.LastClose | index.js:506 | finds the last `)` of a range, as the lookahead after the colour backtracks to it |
| Grammar.ColorAt | index.js:506-516 | the colour is absent iff the run of colour characters after the whitespace holds no `)`; otherwise it is the trimmed text up to the last `)` of that run, with no whitespace at either end |
| Grammar.DropShadowAt | index.js:506-520 | drop-shadow yields a drop-shadow call; when the spread group is absent, the spread is `NaN` |
| Grammar.MatchAt | index.js:438-506 | no pattern other than drop-shadow yields drop-shadow arguments |
| Grammar.MatchOther | index.js:438-503 | the ten patterns other than drop-shadow never yield drop-shadow arguments |
| Grammar.MatchPos | index.js:438 | `String.prototype.match` finds the leftmost position where the pattern matches, and none exists exactly when it fails everywhere |
| Grammar.Search | index.js:438-506 | a match exists exactly when some position matches, and the match is the one at the leftmost such position |
| Grammar.AmountAtOfText | index.js:443-447 | `name(N)` and `name(N%)` are recognised with amount N, and the unit is `%` exactly for the second |
| Grammar.SearchOfAmountText | index.js:443-447 | searching `name(N)` or `name(N%)` finds that call |
| Grammar.HueRotateAtOfText | index.js:464-468 | `hue-rotate(Nu)` with u any of deg, grad, rad, turn is recognised with angle N and unit u |
| Grammar.SearchOfHueRotateText | index.js:464-468 | searching `hue-rotate(Nu)` finds that call |
| Grammar.BlurAtOfText | index.js:499-503 | `blur(Nu)` with u one of px, em, rem or nothing is recognised with radius N and unit u |
| Grammar.SearchOfBlurText | index.js:499-503 | searching `blur(Nu)` finds that call |
| Grammar.LengthAtOf | index.js:506 | a written length (optional blank, digits of N, a shadow unit) is read as N with that unit, and reading resumes right after the unit |
| Grammar.ColorAtOf | index.js:506-516 | after a blank, a colour of colour characters that starts with neither a digit nor whitespace, then `)`: no spread group matches, and the colour is read back trimmed |
| Grammar.DropShadowAtOfText | index.js:506-520 | `drop-shadow(Xux Yuy Rur c)` is recognised with the three numbers and units, no spread (`NaN`, no unit) and colour `trim(c)` |
| Grammar.SearchOfDropShadowText | index.js:506-520 | searching `drop-shadow(Xux Yuy Rur c)` finds that call |
| Convert.Apply | index.js:440-519 | only drop-shadow can throw; `none` gives the none record; every other call gives well-formed lists (SVG entries are markup, IE entries are legacy tokens) |
| Convert.MatcherHonest | index.js:438-506 | against any fragment, only the drop-shadow pattern can produce drop-shadow arguments |
| Convert.LastMatchIsLast | index.js:438-521 | the last match is absent iff no pattern matches; otherwise it comes from a pattern after which none matches |
| Convert.RunWithoutShadowSucceeds | index.js:438-504 | the patterns before drop-shadow never throw |
| Convert.RunIsLastMatch | index.js:438-521 | overwriting in order gives the registry result of the last matching pattern |
| Convert.Convert | index.js:431-524 | `convert` returns `undefined` exactly when no pattern matches the fragment, and throws only on a fragment the drop-shadow pattern matches; which record it returns is stated by `Convert.ConvertIsLastMatch` |
| Convert.ConvertIsLastMatch | index.js:431-524 | `convert` returns the registry result of the last pattern (in the order none, …, drop-shadow) that matches, and `undefined` exactly when no pattern matches |
| Convert.ConvertResultShape | index.js:431-524 | a record `convert` returns is the none record or has well-formed lists |
| Declaration.SeparatorEnd | index.js:536 | a separator is `)` then whitespace, with the whitespace run ending before a character that is not `)` (the lookahead after backtracking) |
| Declaration.SeparatorEndIsLongestMatch | index.js:536 | the separator found at a position is a match of `\)\s+(?!\))` there and the longest one, and nothing is found exactly when no match starts there |
| Declaration.SplitFromCount | index.js:536 | there is one more piece than there are separators |
| Declaration.SeparatorsFromAreSeparators | index.js:536 | every removed separator matches `\)\s+(?!\))` |
| Declaration.SplitFromRebuilds | index.js:536 | weaving the pieces and separators of a suffix back together gives that suffix |
| Declaration.Split | index.js:536 | the pieces are one more than the separators cut out, and weaving them back together gives the value; where the cuts fall is stated by `Declaration.SplitIsExact` |
| Declaration.SplitRebuilds | index.js:536 | `split` loses nothing: the pieces interleaved with the removed separators are the original value |
| Declaration.SplitFromExact | index.js:536 | from a point before which no separator matches, each piece runs to the leftmost position where one matches and each separator is the match taken there |
| Declaration.SplitIsExact | index.js:536 | no position inside a piece starts a separator match, and each piece ends where the next separator, the longest match there, begins |
| Declaration.SplitWithoutParen | index.js:536 | a value with no `)` is not split |
| Declaration.SplitExamples | index.js:536 | `")  )"` splits after one blank by backtracking, and `") )"` does not split |
| Declaration.Fragments | index.js:544-549 | every fragment but the last gets its `)` back, and the last is unchanged |
| Declaration.Contribution | index.js:551-556 | `undefined` contributes nothing to any list |
| Declaration.FlattenAppend | index.js:551-556 | merging two runs of fragments is merging each run and concatenating |
| Declaration.FlattenKeepsOrder | index.js:551-556 | each fragment's list appears whole, in fragment order, between the lists before and after it |
| Declaration.FlattenLength | index.js:551-556 | merging never drops or deduplicates: the length is the sum of the lengths |
| Declaration.Merge | index.js:543-557 | the loop of `concat`s computes the in-order concatenation of every fragment's three lists |
| Declaration.MergeStep | index.js:551-556 | each step appends exactly the current fragment's lists |
| Declaration.UnmatchedFragmentIsIgnored | index.js:550-556 | inserting an unrecognised or refused fragment anywhere leaves the merged lists unchanged |
| Declaration.NoneMarkerTracksNoneFragments | index.js:577 | the merged SVG list contains `none` exactly when some fragment was recognised as `none` |
| Declaration.MergedIeTokensAreLegacy | index.js:559-560 | every merged IE entry is a legacy token |
| Declaration.SvgDeclarationValue | index.js:578-579 | the value is `url('data:image/svg+xml;charset=utf-8,`, then a document whose filter body is the concatenation of the SVG list, then `#filter')` |
| Declaration.Emit | index.js:559-594 | an IE declaration (the tokens joined by a space) is emitted iff `oldIE` is set, the IE list is non-empty and no sibling has that value; an SVG declaration only when the SVG list is non-empty, holds no `none` and no sibling has its value |
| Declaration.EmitSvgDecision | index.js:572-594 | the SVG declaration is emitted exactly under those three conditions, even though the IE declaration was inserted first |
| Declaration.ConvertAll | index.js:544-550 | converting the fragments either fails exactly when some fragment throws, or gives one result per fragment, in order |
| Declaration.ConvertAllShape | index.js:550 | when no fragment throws, every per-fragment result is `undefined`, the none record or well-formed lists |
| Declaration.HandleFilter | index.js:534-594 | the handler throws exactly when `convert` throws on some fragment, which needs a fragment the drop-shadow pattern matches, and inserts an IE declaration only under `oldIE`; the SVG decision is stated by `Declaration.HandleFilterSvg` |
| Declaration.HandleFilterSvg | index.js:534-594 | for a whole `filter` value on which no fragment throws, the SVG declaration is emitted iff some fragment produced SVG, no fragment was `none`, and no sibling already has the value |

## Left out

- PostCSS plumbing (index.js:526-600): `module.exports`, `postcssPlugin`,
  `walkDecls`, and `insertBefore`/`insertAfter`. Sibling declarations are the
  list of values `walkDecls` visits, and that list includes the declaration
  itself. An insertion is the returned `Emission`, not a tree mutation. If
  PostCSS later visits an inserted declaration again, the model does not
  follow that.
- JavaScript number printing is the `num` parameter. The model does not state
  how `real`s print, so string contents are stated up to `num`.
- onecolor (index.js:411) is the `cssa` parameter.
- IEEE-754 arithmetic: matrix coefficients, the `/ 100` and the intercept are
  exact `real`s. `Math.PI` is the literal 3.141592653589793.
- Regular expressions have no general engine. Each of the eleven patterns and
  the split separator has its own recogniser. Case folding under `/i` covers
  ASCII only; every pattern letter is ASCII, and no non-ASCII character folds
  onto one.
- The `filtersCSS` list is computed and merged but never emitted by the
  handler, as in the source.
- Units.Angle: its contract states the `rad` case as `r·π = 180·a` with π the
  literal constant, not with JavaScript's rounded quotient.
- Filters.Element, Filters.Parent, Filters.MatrixElement, Filters.Transfer:
  their contracts state only that the result is markup starting with `<`. The
  exact text is stated by `Svg.CreateSvgElement`.
- Declaration.Emit: its SVG clause is an implication, because the inserted
  IE declaration is also a sibling. `Declaration.EmitSvgDecision` closes the
  equivalence for legacy IE lists.
- Grammar.BlurAt, Grammar.LengthAt: their contracts state the shape of a
  match. What they read from written text is stated by
  `Grammar.BlurAtOfText` and `Grammar.LengthAtOf`.
- Grammar.DropShadowAtOfText: the round trip covers texts without the
  optional spread group and colours that start with neither a digit nor
  whitespace; a colour starting with a digit would be read as a spread.

## Findings

| source | as written | input that shows it | evidently intended | confidence | as-written member | corrected member |
|---|---|---|---|---|---|---|
| index.js:168 | the green diagonal of the saturate matrix is `0.715 + 0.295·a` | `saturate(1)` (a = 1): green diagonal 1.01, so the green row sums to 1.01 and the filter brightens green instead of being the identity | `0.715 + 0.285·a`, the Filter Effects `saturate` matrix, which is the identity at 1 and keeps every row summing to 1 | high, not executed | ColorMatrix.SaturateAsWrittenNotIdentity | ColorMatrix.Saturate |
