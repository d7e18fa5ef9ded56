/** The pure part of the `Declaration.filter` handler (index.js:536-594):
    split the value into fragments, convert each, merge the lists in
    fragment order, and decide which extra declarations to insert. The
    stylesheet tree is not modelled: the values of the sibling declarations
    come in as a sequence and the insertions go out as a decision. */
module Declaration {
  import opened Wrappers
  import opened Text
  import Svg
  import opened Filters
  import Convert
  import Grammar

  // ---------------------------------------------------------------------
  // Splitting on /\)\s+(?!\))/

  /** End of the separator `/\)\s+(?!\))/` matched at `i`, if it matches
      there. `\s+` is greedy and gives back one character when the
      whitespace run is followed by `)`, so `")  )"` still splits (before the
      last space) while `") )"` does not. */
  function SeparatorEnd(s: string, i: nat): (e: Option<nat>)
    requires i <= |s|
    ensures e.Some? ==> i + 2 <= e.value <= |s| && s[i] == ')'
    ensures e.Some? ==> forall k :: i < k < e.value ==> IsSpace(s[k])
    ensures e.Some? ==> e.value == |s| || s[e.value] != ')'
  {
    if i < |s| && s[i] == ')' then
      var j := Span(s, i + 1, IsSpace);
      if j == i + 1 then None
      else if j < |s| && s[j] == ')' then
        if j - (i + 1) >= 2 then Some(j - 1) else None
      else Some(j)
    else None
  }

  /** The ways `/\)\s+(?!\))/` can match at `i`: `)`, one or more
      whitespace characters up to `end`, and no `)` at `end`. */
  predicate SeparatorMatch(s: string, i: nat, end: nat) {
    i + 2 <= end <= |s| && s[i] == ')'
    && (forall k :: i < k < end ==> IsSpace(s[k]))
    && (end == |s| || s[end] != ')')
  }

  /** `SeparatorEnd` is what the regular expression finds: the longest of
      the matches at `i` when there is one, and nothing when there is none. */
  lemma SeparatorEndIsLongestMatch(s: string, i: nat)
    requires i <= |s|
    ensures SeparatorEnd(s, i).Some? ==> SeparatorMatch(s, i, SeparatorEnd(s, i).value)
    ensures SeparatorEnd(s, i).Some? ==>
              forall end: nat :: SeparatorMatch(s, i, end) ==> end <= SeparatorEnd(s, i).value
    ensures SeparatorEnd(s, i).None? <==> forall end: nat :: !SeparatorMatch(s, i, end)
  {
    if i < |s| && s[i] == ')' {
      SeparatorEndOfRun(s, i, Span(s, i + 1, IsSpace));
    }
  }

  /** With `j` the end of the whitespace run after the `)` at `i`, the
      matches at `i` end at `j` or, when `)` follows the run, one before it. */
  lemma SeparatorEndOfRun(s: string, i: nat, j: nat)
    requires i < j <= |s| && s[i] == ')'
    requires forall k :: i < k < j ==> IsSpace(s[k])
    requires j == |s| || !IsSpace(s[j])
    ensures forall end: nat :: SeparatorMatch(s, i, end) ==> end <= j
    ensures forall end: nat :: SeparatorMatch(s, i, end) && j < |s| && s[j] == ')' ==> end < j
    ensures j >= i + 2 && (j == |s| || s[j] != ')') ==> SeparatorMatch(s, i, j)
    ensures j >= i + 3 && j < |s| && s[j] == ')' ==> SeparatorMatch(s, i, j - 1)
  {
    forall end: nat | SeparatorMatch(s, i, end)
      ensures end <= j
    {
      if end > j {
        assert false;
      }
    }
  }

  /** `String.prototype.split` with the separator pattern: `start` is where
      the current piece began, `q` where the next match is tried. */
  function SplitFrom(s: string, start: nat, q: nat): (pieces: seq<string>)
    requires start <= q <= |s|
    ensures |pieces| >= 1
    decreases |s| - q
  {
    if q == |s| then [s[start..]]
    else match SeparatorEnd(s, q)
      case Some(e) => [s[start..q]] + SplitFrom(s, e, e)
      case None => SplitFrom(s, start, q + 1)
  }

  /** The separators `SplitFrom` cut out, in order. */
  function SeparatorsFrom(s: string, start: nat, q: nat): (seps: seq<string>)
    requires start <= q <= |s|
    decreases |s| - q
  {
    if q == |s| then []
    else match SeparatorEnd(s, q)
      case Some(e) => [s[q..e]] + SeparatorsFrom(s, e, e)
      case None => SeparatorsFrom(s, start, q + 1)
  }

  /** `value.split(/\)\s+(?!\))/)`: the pieces, woven back together with the
      separators cut out, give the value again. `SplitIsExact` states where
      the cuts fall. */
  function Split(s: string): (pieces: seq<string>)
    ensures |pieces| == |Separators(s)| + 1
    ensures Weave(pieces, Separators(s)) == s
  {
    SplitFromRebuilds(s, 0, 0);
    SplitFrom(s, 0, 0)
  }

  function Separators(s: string): seq<string> {
    SeparatorsFrom(s, 0, 0)
  }

  /** A separator: `)` then at least one whitespace character. */
  predicate IsSeparator(t: string) {
    |t| >= 2 && t[0] == ')' && forall k :: 1 <= k < |t| ==> IsSpace(t[k])
  }

  /** Pieces and separators alternate: p0 s0 p1 s1 ... pn. */
  function Weave(pieces: seq<string>, seps: seq<string>): string
    requires |pieces| == |seps| + 1
    decreases |seps|
  {
    if |seps| == 0 then pieces[0] else pieces[0] + seps[0] + Weave(pieces[1..], seps[1..])
  }

  lemma {:induction false} SplitFromCount(s: string, start: nat, q: nat)
    requires start <= q <= |s|
    ensures |SplitFrom(s, start, q)| == |SeparatorsFrom(s, start, q)| + 1
    decreases |s| - q
  {
    if q < |s| {
      match SeparatorEnd(s, q)
      case Some(e) => SplitFromCount(s, e, e);
      case None => SplitFromCount(s, start, q + 1);
    }
  }

  lemma {:induction false} SeparatorsFromAreSeparators(s: string, start: nat, q: nat)
    requires start <= q <= |s|
    ensures forall k :: 0 <= k < |SeparatorsFrom(s, start, q)| ==> IsSeparator(SeparatorsFrom(s, start, q)[k])
    decreases |s| - q
  {
    if q < |s| {
      match SeparatorEnd(s, q)
      case Some(e) =>
        SeparatorsFromAreSeparators(s, e, e);
        var seps := SeparatorsFrom(s, start, q);
        assert seps == [s[q..e]] + SeparatorsFrom(s, e, e);
        assert IsSeparator(seps[0]);
      case None => SeparatorsFromAreSeparators(s, start, q + 1);
    }
  }

  lemma {:induction false} SplitFromRebuilds(s: string, start: nat, q: nat)
    requires start <= q <= |s|
    ensures |SplitFrom(s, start, q)| == |SeparatorsFrom(s, start, q)| + 1
    ensures Weave(SplitFrom(s, start, q), SeparatorsFrom(s, start, q)) == s[start..]
    decreases |s| - q
  {
    SplitFromCount(s, start, q);
    if q < |s| {
      match SeparatorEnd(s, q)
      case Some(e) =>
        SplitFromRebuilds(s, e, e);
        var pieces := SplitFrom(s, start, q);
        var seps := SeparatorsFrom(s, start, q);
        assert pieces[1..] == SplitFrom(s, e, e) && seps[1..] == SeparatorsFrom(s, e, e);
        WeaveFirst(pieces, seps);
        assert s[start..] == s[start..q] + s[q..e] + s[e..];
      case None =>
        SplitFromRebuilds(s, start, q + 1);
    }
  }

  lemma WeaveFirst(pieces: seq<string>, seps: seq<string>)
    requires |pieces| == |seps| + 1 && |seps| > 0
    ensures Weave(pieces, seps) == pieces[0] + seps[0] + Weave(pieces[1..], seps[1..])
  {
  }

  /** Splitting loses nothing: the pieces, rejoined with the separators that
      were cut out, give back the value, and every separator is `)` followed by whitespace. */
  lemma SplitRebuilds(s: string)
    ensures |Split(s)| == |Separators(s)| + 1
    ensures forall k :: 0 <= k < |Separators(s)| ==> IsSeparator(Separators(s)[k])
    ensures Weave(Split(s), Separators(s)) == s
  {
    SplitFromRebuilds(s, 0, 0);
    SeparatorsFromAreSeparators(s, 0, 0);
  }

  /** No separator match starts in `[lo, hi)`. */
  predicate NoSeparatorIn(s: string, lo: nat, hi: nat)
    requires lo <= hi <= |s|
  {
    forall k :: lo <= k < hi ==> SeparatorEnd(s, k).None?
  }

  /** `pieces` and `seps` cut `s` from `at` on the way a left-to-right
      search does: each piece is the text up to the first position where a
      separator matches, and each separator is the match found there. */
  predicate Cuts(s: string, at: nat, pieces: seq<string>, seps: seq<string>)
    requires at <= |s| && |pieces| == |seps| + 1
    decreases |seps|
  {
    var m := at + |pieces[0]|;
    && m <= |s|
    && pieces[0] == s[at..m]
    && NoSeparatorIn(s, at, m)
    && if |seps| == 0 then m == |s|
       else
         && m + |seps[0]| <= |s|
         && SeparatorEnd(s, m) == Some(m + |seps[0]|)
         && seps[0] == s[m..m + |seps[0]|]
         && Cuts(s, m + |seps[0]|, pieces[1..], seps[1..])
  }

  lemma {:induction false} SplitFromExact(s: string, start: nat, q: nat)
    requires start <= q <= |s|
    requires NoSeparatorIn(s, start, q)
    ensures |SplitFrom(s, start, q)| == |SeparatorsFrom(s, start, q)| + 1
    ensures Cuts(s, start, SplitFrom(s, start, q), SeparatorsFrom(s, start, q))
    decreases |s| - q
  {
    SplitFromCount(s, start, q);
    if q == |s| {
      assert SplitFrom(s, start, q) == [s[start..]];
    } else {
      match SeparatorEnd(s, q)
      case Some(e) =>
        SplitFromExact(s, e, e);
        SplitFromCount(s, e, e);
        CutsStep(s, start, q, e, SplitFrom(s, e, e), SeparatorsFrom(s, e, e));
      case None =>
        NoSeparatorExtend(s, start, q);
        SplitFromExact(s, start, q + 1);
    }
  }

  lemma NoSeparatorExtend(s: string, lo: nat, hi: nat)
    requires lo <= hi < |s| && NoSeparatorIn(s, lo, hi) && SeparatorEnd(s, hi).None?
    ensures NoSeparatorIn(s, lo, hi + 1)
  {
  }

  /** One more piece and separator in front of an exact cut. */
  lemma {:induction false} CutsStep(s: string, at: nat, m: nat, e: nat, rest: seq<string>, restSeps: seq<string>)
    requires at <= m < e <= |s| && |rest| == |restSeps| + 1
    requires NoSeparatorIn(s, at, m) && SeparatorEnd(s, m) == Some(e)
    requires Cuts(s, e, rest, restSeps)
    ensures Cuts(s, at, [s[at..m]] + rest, [s[m..e]] + restSeps)
  {
    var pieces := [s[at..m]] + rest;
    var seps := [s[m..e]] + restSeps;
    assert pieces[0] == s[at..m] && |pieces[0]| == m - at && at + |pieces[0]| == m;
    assert seps[0] == s[m..e] && |seps[0]| == e - m && m + |seps[0]| == e;
    assert pieces[1..] == rest && seps[1..] == restSeps;
  }

  /** The split is exact: every piece runs up to the leftmost place a
      separator matches, and every separator is the match taken there, so no
      piece contains a place where one could have been cut. */
  lemma SplitIsExact(s: string)
    ensures |Split(s)| == |Separators(s)| + 1
    ensures Cuts(s, 0, Split(s), Separators(s))
  {
    SplitFromExact(s, 0, 0);
  }

  /** A value without `)` is a single fragment. */
  lemma {:induction false} SplitWithoutParen(s: string, start: nat, q: nat)
    requires start <= q <= |s|
    requires forall k :: q <= k < |s| ==> s[k] != ')'
    ensures SplitFrom(s, start, q) == [s[start..]]
    decreases |s| - q
  {
    if q < |s| {
      SplitWithoutParen(s, start, q + 1);
    }
  }

  /** The separator needs something other than `)` after its whitespace. */
  lemma SplitExamples()
    ensures Split(")  )") == ["", " )"]
    ensures Split(") )") == [") )"]
  {
    var a := ")  )";
    assert Span(a, 3, IsSpace) == 3;
    assert Span(a, 2, IsSpace) == 3;
    assert Span(a, 1, IsSpace) == 3;
    assert SeparatorEnd(a, 0) == Some(2);
    assert SeparatorEnd(a, 2) == None;
    assert SeparatorEnd(a, 3) == None;
    var b := ") )";
    assert Span(b, 2, IsSpace) == 2;
    assert Span(b, 1, IsSpace) == 2;
    assert SeparatorEnd(b, 0) == None;
    assert SeparatorEnd(b, 2) == None;
  }

  /** Every fragment but the last gets back the `)` the split consumed. */
  function Fragments(pieces: seq<string>): (frags: seq<string>)
    ensures |frags| == |pieces|
    ensures forall k :: 0 <= k < |pieces| - 1 ==> frags[k] == pieces[k] + ")"
    ensures |pieces| > 0 ==> frags[|pieces| - 1] == pieces[|pieces| - 1]
  {
    seq(|pieces|, k requires 0 <= k < |pieces| =>
      if k != |pieces| - 1 then pieces[k] + ")" else pieces[k])
  }

  // ---------------------------------------------------------------------
  // Merging the fragments' lists

  /** The three lists after merging, each starting from `[]`. */
  datatype Bundle = Bundle(css: seq<string>, svg: seq<string>, ie: seq<string>)

  /** What one `convert` result adds: the lists it has; `undefined`, `{}`
      and absent lists add nothing. */
  function Contribution(r: Option<Props>): (b: Bundle)
    ensures r.None? ==> b == Bundle([], [], [])
  {
    match r
    case None => Bundle([], [], [])
    case Some(p) => Bundle(p.css.GetOr([]), p.svg.GetOr([]), p.ie.GetOr([]))
  }

  function Flatten(xss: seq<seq<string>>): seq<string>
    decreases |xss|
  {
    if |xss| == 0 then [] else xss[0] + Flatten(xss[1..])
  }

  lemma {:induction false} FlattenAppend(xss: seq<seq<string>>, yss: seq<seq<string>>)
    ensures Flatten(xss + yss) == Flatten(xss) + Flatten(yss)
    decreases |xss|
  {
    if |xss| == 0 {
      assert xss + yss == yss;
    } else {
      assert (xss + yss)[1..] == xss[1..] + yss;
      FlattenAppend(xss[1..], yss);
    }
  }

  /** Concatenation keeps every list whole and in place: list `k` sits
      between the lists before it and the lists after it. */
  lemma {:induction false} FlattenKeepsOrder(xss: seq<seq<string>>, k: nat)
    requires k < |xss|
    ensures Flatten(xss) == Flatten(xss[..k]) + xss[k] + Flatten(xss[k + 1..])
  {
    var tail := [xss[k]] + xss[k + 1..];
    assert Flatten(xss) == Flatten(xss[..k]) + Flatten(tail) by {
      assert xss == xss[..k] + tail;
      FlattenAppend(xss[..k], tail);
    }
    assert Flatten(tail) == xss[k] + Flatten(xss[k + 1..]) by {
      assert tail[0] == xss[k] && tail[1..] == xss[k + 1..];
    }
  }

  /** Nothing is dropped or deduplicated: the merged length is the sum of the lengths. */
  lemma {:induction false} FlattenLength(xss: seq<seq<string>>)
    ensures |Flatten(xss)| == SumLengths(xss)
    decreases |xss|
  {
    if |xss| > 0 {
      FlattenLength(xss[1..]);
    }
  }

  function SumLengths(xss: seq<seq<string>>): nat
    decreases |xss|
  {
    if |xss| == 0 then 0 else |xss[0]| + SumLengths(xss[1..])
  }

  function CssLists(rs: seq<Option<Props>>): seq<seq<string>> {
    seq(|rs|, k requires 0 <= k < |rs| => Contribution(rs[k]).css)
  }

  function SvgLists(rs: seq<Option<Props>>): seq<seq<string>> {
    seq(|rs|, k requires 0 <= k < |rs| => Contribution(rs[k]).svg)
  }

  function IeLists(rs: seq<Option<Props>>): seq<seq<string>> {
    seq(|rs|, k requires 0 <= k < |rs| => Contribution(rs[k]).ie)
  }

  /** The merge as a specification: each list is the in-order concatenation
      of the fragments' lists. */
  function MergeSpec(rs: seq<Option<Props>>): Bundle {
    Bundle(Flatten(CssLists(rs)), Flatten(SvgLists(rs)), Flatten(IeLists(rs)))
  }

  /** The merge loop of index.js:544-557. */
  method Merge(rs: seq<Option<Props>>) returns (b: Bundle)
    ensures b == MergeSpec(rs)
  {
    b := Bundle([], [], []);
    var i := 0;
    while i < |rs|
      invariant 0 <= i <= |rs|
      invariant b.css == Flatten(CssLists(rs[..i]))
      invariant b.svg == Flatten(SvgLists(rs[..i]))
      invariant b.ie == Flatten(IeLists(rs[..i]))
    {
      var c := Contribution(rs[i]);
      MergeStep(rs, i);
      b := Bundle(b.css + c.css, b.svg + c.svg, b.ie + c.ie);
      i := i + 1;
    }
    assert rs[..i] == rs;
  }

  lemma MergeStep(rs: seq<Option<Props>>, i: nat)
    requires i < |rs|
    ensures Flatten(CssLists(rs[..i + 1])) == Flatten(CssLists(rs[..i])) + Contribution(rs[i]).css
    ensures Flatten(SvgLists(rs[..i + 1])) == Flatten(SvgLists(rs[..i])) + Contribution(rs[i]).svg
    ensures Flatten(IeLists(rs[..i + 1])) == Flatten(IeLists(rs[..i])) + Contribution(rs[i]).ie
  {
    var c := Contribution(rs[i]);
    assert CssLists(rs[..i + 1]) == CssLists(rs[..i]) + [c.css];
    assert SvgLists(rs[..i + 1]) == SvgLists(rs[..i]) + [c.svg];
    assert IeLists(rs[..i + 1]) == IeLists(rs[..i]) + [c.ie];
    FlattenAppend(CssLists(rs[..i]), [c.css]);
    FlattenAppend(SvgLists(rs[..i]), [c.svg]);
    FlattenAppend(IeLists(rs[..i]), [c.ie]);
    assert Flatten([c.css]) == c.css && Flatten([c.svg]) == c.svg && Flatten([c.ie]) == c.ie;
  }

  /** A fragment that matches nothing (or that a filter refused) leaves the
      merge unchanged wherever it stands: the "invalid filters" behaviour. */
  lemma UnmatchedFragmentIsIgnored(rs: seq<Option<Props>>, k: nat, r: Option<Props>)
    requires k <= |rs|
    requires r.None? || r == Some(Empty)
    ensures MergeSpec(rs[..k] + [r] + rs[k..]) == MergeSpec(rs)
  {
    var with := rs[..k] + [r] + rs[k..];
    assert Flatten(CssLists(with)) == Flatten(CssLists(rs)) by {
      assert CssLists(with) == CssLists(rs)[..k] + [[]] + CssLists(rs)[k..];
      FlattenInsertEmpty(CssLists(rs), k);
    }
    assert Flatten(SvgLists(with)) == Flatten(SvgLists(rs)) by {
      assert SvgLists(with) == SvgLists(rs)[..k] + [[]] + SvgLists(rs)[k..];
      FlattenInsertEmpty(SvgLists(rs), k);
    }
    assert Flatten(IeLists(with)) == Flatten(IeLists(rs)) by {
      assert IeLists(with) == IeLists(rs)[..k] + [[]] + IeLists(rs)[k..];
      FlattenInsertEmpty(IeLists(rs), k);
    }
  }

  /** An empty list inserted anywhere does not change the concatenation. */
  lemma {:induction false} FlattenInsertEmpty(xss: seq<seq<string>>, k: nat)
    requires k <= |xss|
    ensures Flatten(xss[..k] + [[]] + xss[k..]) == Flatten(xss)
    decreases k
  {
    var ins := xss[..k] + [[]] + xss[k..];
    if k == 0 {
      assert ins[0] == [] && ins[1..] == xss;
    } else {
      FlattenInsertEmpty(xss[1..], k - 1);
      assert ins[0] == xss[0];
      assert ins[1..] == xss[1..][..k - 1] + [[]] + xss[1..][k - 1..];
    }
  }

  // ---------------------------------------------------------------------
  // What a merged list can contain

  /** What `convert` can return for one fragment. */
  predicate IsConvertResult(r: Option<Props>) {
    r.None? || r.value == None_() || WellFormed(r.value)
  }

  /** The merged SVG list holds the marker `none` exactly when some fragment was `none`. */
  lemma {:induction false} NoneMarkerTracksNoneFragments(rs: seq<Option<Props>>)
    requires forall k :: 0 <= k < |rs| ==> IsConvertResult(rs[k])
    ensures "none" in MergeSpec(rs).svg <==> exists k :: 0 <= k < |rs| && rs[k] == Some(None_())
    decreases |rs|
  {
    if |rs| > 0 {
      NoneMarkerTracksNoneFragments(rs[1..]);
      assert SvgLists(rs)[1..] == SvgLists(rs[1..]);
      assert MergeSpec(rs).svg == Contribution(rs[0]).svg + MergeSpec(rs[1..]).svg;
      if rs[0] != Some(None_()) && rs[0].Some? {
        assert "none"[0] != '<';
      }
      if exists k :: 0 <= k < |rs| && rs[k] == Some(None_()) {
        var k :| 0 <= k < |rs| && rs[k] == Some(None_());
        if k > 0 {
          assert rs[1..][k - 1] == rs[k];
        }
      }
      if exists k :: 0 <= k < |rs| - 1 && rs[1..][k] == Some(None_()) {
        var k :| 0 <= k < |rs| - 1 && rs[1..][k] == Some(None_());
        assert rs[k + 1] == Some(None_());
      }
    }
  }

  /** Every token of the merged IE list is a legacy filter token. */
  lemma MergedIeTokensAreLegacy(rs: seq<Option<Props>>)
    requires forall k :: 0 <= k < |rs| ==> IsConvertResult(rs[k])
    ensures forall t :: t in MergeSpec(rs).ie ==> IsLegacyToken(t)
  {
    IeTokensAreLegacy(rs);
  }

  lemma {:induction false} IeTokensAreLegacy(rs: seq<Option<Props>>)
    requires forall k :: 0 <= k < |rs| ==> IsConvertResult(rs[k])
    ensures forall t :: t in Flatten(IeLists(rs)) ==> IsLegacyToken(t)
    decreases |rs|
  {
    if |rs| > 0 {
      IeTokensAreLegacy(rs[1..]);
      assert IeLists(rs)[1..] == IeLists(rs[1..]);
      assert Flatten(IeLists(rs)) == Contribution(rs[0]).ie + Flatten(IeLists(rs[1..]));
      ContributionIeIsLegacy(rs[0]);
      LegacyAppend(Contribution(rs[0]).ie, Flatten(IeLists(rs[1..])));
    }
  }

  lemma ContributionIeIsLegacy(r: Option<Props>)
    requires IsConvertResult(r)
    ensures forall t :: t in Contribution(r).ie ==> IsLegacyToken(t)
  {
  }

  lemma LegacyAppend(a: seq<string>, b: seq<string>)
    requires forall t :: t in a ==> IsLegacyToken(t)
    requires forall t :: t in b ==> IsLegacyToken(t)
    ensures forall t :: t in a + b ==> IsLegacyToken(t)
  {
  }

  // ---------------------------------------------------------------------
  // Which declarations to insert

  const DataUrlPrefix := "url('data:image/svg+xml;charset=utf-8,"

  const DataUrlSuffix := "#filter')"

  /** The value of the inserted SVG declaration: a `url('data:…')` whose
      document holds the elements, in order, and which points at the filter. */
  function SvgDeclarationValue(svg: seq<string>): (v: string)
    ensures |v| >= |DataUrlPrefix| + |DataUrlSuffix| && v[0] == 'u'
    ensures v[..|DataUrlPrefix|] == DataUrlPrefix
    ensures v[|v| - |DataUrlSuffix|..] == DataUrlSuffix
    ensures Svg.FilterBody(v[|DataUrlPrefix|..|v| - |DataUrlSuffix|]) == Some(Concat(svg))
  {
    Svg.CreateSvgRoundTrip(svg);
    DataUrlOf(Svg.CreateSvg(svg))
  }

  /** Wraps a document into the data URL. */
  function DataUrlOf(doc: string): (v: string)
    ensures |v| == |DataUrlPrefix| + |doc| + |DataUrlSuffix|
    ensures v[..|DataUrlPrefix|] == DataUrlPrefix
    ensures v[|DataUrlPrefix|..|v| - |DataUrlSuffix|] == doc
    ensures v[|v| - |DataUrlSuffix|..] == DataUrlSuffix
  {
    DataUrlPrefix + doc + DataUrlSuffix
  }

  /** The decision: `ie` is the declaration inserted after the original one,
      `svg` the one inserted before it. */
  datatype Emission = Emission(ie: Option<string>, svg: Option<string>)

  /** index.js:559-594. The IE declaration is inserted first, so the SVG
      check also sees it among the declarations already present. */
  function Emit(b: Bundle, oldIE: bool, siblings: seq<string>): (e: Emission)
    ensures e.ie.Some? <==> oldIE && |b.ie| > 0 && Join(" ", b.ie) !in siblings
    ensures e.ie.Some? ==> e.ie.value == Join(" ", b.ie)
    ensures e.svg.Some? ==> |b.svg| > 0 && "none" !in b.svg && SvgDeclarationValue(b.svg) !in siblings
    ensures e.svg.Some? ==> e.svg.value == SvgDeclarationValue(b.svg)
  {
    var ie := if oldIE && |b.ie| > 0 && Join(" ", b.ie) !in siblings then Some(Join(" ", b.ie)) else None;
    var present := if ie.Some? then siblings + [ie.value] else siblings;
    var svgValue := SvgDeclarationValue(b.svg);
    var svg := if |b.svg| > 0 && "none" !in b.svg && svgValue !in present then Some(svgValue) else None;
    Emission(ie, svg)
  }

  /** The inserted IE declaration can never suppress the SVG one: when the IE
      list holds legacy tokens, the SVG declaration is emitted exactly when the
      SVG list is non-empty, holds no `none` and no sibling already has its value. */
  lemma EmitSvgDecision(b: Bundle, oldIE: bool, siblings: seq<string>)
    requires forall t :: t in b.ie ==> IsLegacyToken(t)
    ensures Emit(b, oldIE, siblings).svg.Some?
            <==> |b.svg| > 0 && "none" !in b.svg && SvgDeclarationValue(b.svg) !in siblings
  {
    if |b.ie| > 0 {
      JoinStartsWithFirst(" ", b.ie);
      var t := b.ie[0];
      assert IsLegacyToken(t);
      assert t[0] != 'u' by {
        if t != Gray && t != InvertToken {
          assert t[0] == t[..|LegacyPrefix|][0] == LegacyPrefix[0];
        }
      }
      assert Join(" ", b.ie)[0] == t[0];
      assert Join(" ", b.ie) != SvgDeclarationValue(b.svg);
    }
  }

  // ---------------------------------------------------------------------
  // The whole handler

  /** `convert` on each fragment in turn; the first exception ends the walk. */
  function ConvertAll(conv: string -> Result<Option<Props>, string>, frags: seq<string>)
    : (r: Result<seq<Option<Props>>, string>)
    ensures r.Success? ==> |r.value| == |frags|
    ensures r.Success? ==> forall k :: 0 <= k < |frags| ==> conv(frags[k]) == Success(r.value[k])
    ensures r.Failure? <==> exists k :: 0 <= k < |frags| && conv(frags[k]).Failure?
    decreases |frags|
  {
    if |frags| == 0 then Success([])
    else match conv(frags[0])
      case Failure(e) => Failure(e)
      case Success(p) =>
        match ConvertAll(conv, frags[1..])
        case Failure(e) =>
          var k :| 0 <= k < |frags| - 1 && conv(frags[1..][k]).Failure?;
          assert frags[k + 1] == frags[1..][k];
          Failure(e)
        case Success(ps) =>
          assert forall k :: 1 <= k < |frags| ==> frags[k] == frags[1..][k - 1];
          Success([p] + ps)
  }

  /** The conversion of one fragment. */
  function Converter(f: Format): string -> Result<Option<Props>, string> {
    v => Convert.Convert(f, v)
  }

  /** The merged lists of one `filter` value. */
  function BundleOf(f: Format, value: string): Result<Bundle, string> {
    match ConvertAll(Converter(f), Fragments(Split(value)))
    case Failure(e) => Failure(e)
    case Success(rs) => Success(MergeSpec(rs))
  }

  /** `Declaration.filter` without the tree: the declarations to insert for
      one `filter` value, given the `oldIE` option and the values of the
      declarations already in the rule. */
  function HandleFilter(f: Format, value: string, oldIE: bool, siblings: seq<string>): (r: Result<Emission, string>)
    ensures var frags := Fragments(Split(value));
            r.Failure? <==> exists k :: 0 <= k < |frags| && Convert.Convert(f, frags[k]).Failure?
    ensures var frags := Fragments(Split(value));
            r.Failure? ==> exists k :: 0 <= k < |frags| && Grammar.Search(Grammar.DropShadowG, frags[k]).Some?
    ensures r.Success? && r.value.ie.Some? ==> oldIE
  {
    match BundleOf(f, value)
    case Failure(e) => Failure(e)
    case Success(b) => Success(Emit(b, oldIE, siblings))
  }

  /** Every fragment's result has the shape `convert` guarantees. */
  lemma ConvertAllShape(f: Format, frags: seq<string>)
    ensures ConvertAll(Converter(f), frags).Success? ==>
              forall k :: 0 <= k < |frags| ==> IsConvertResult(ConvertAll(Converter(f), frags).value[k])
  {
    if ConvertAll(Converter(f), frags).Success? {
      var rs := ConvertAll(Converter(f), frags).value;
      forall k | 0 <= k < |frags|
        ensures IsConvertResult(rs[k])
      {
        assert Converter(f)(frags[k]) == Convert.Convert(f, frags[k]);
        Convert.ConvertResultShape(f, frags[k]);
      }
    }
  }

  /** A `none` anywhere in the value means no SVG declaration; otherwise
      the SVG declaration appears exactly when some fragment produced SVG
      primitives and no sibling already carries the same value. */
  lemma HandleFilterSvg(f: Format, value: string, oldIE: bool, siblings: seq<string>)
    ensures HandleFilter(f, value, oldIE, siblings).Success? ==>
            var frags := Fragments(Split(value));
            var rs := ConvertAll(Converter(f), frags).value;
            var b := MergeSpec(rs);
            HandleFilter(f, value, oldIE, siblings).value.svg.Some?
            <==> |b.svg| > 0 && (forall k :: 0 <= k < |rs| ==> rs[k] != Some(None_()))
                 && SvgDeclarationValue(b.svg) !in siblings
  {
    if HandleFilter(f, value, oldIE, siblings).Success? {
      var frags := Fragments(Split(value));
      var rs := ConvertAll(Converter(f), frags).value;
      ConvertAllShape(f, frags);
      NoneMarkerTracksNoneFragments(rs);
      MergedIeTokensAreLegacy(rs);
      EmitSvgDecision(MergeSpec(rs), oldIE, siblings);
    }
  }
}
