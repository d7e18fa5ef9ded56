/** The SVG serialiser of index.js: one element with its attributes in
    insertion order, and the `<svg><filter id="filter">` document around a
    list of filter primitives. Attribute values are already text here; the
    numeric ones are rendered by the caller. */
module Svg {
  import opened Wrappers
  import opened Text

  type Attr = (string, string)

  /** ` name="value"` for each attribute, in order. */
  function Attrs(attrs: seq<Attr>): (r: string)
    decreases |attrs|
  {
    if |attrs| == 0 then ""
    else " " + attrs[0].0 + "=\"" + attrs[0].1 + "\"" + Attrs(attrs[1..])
  }

  lemma {:induction false} AttrsAppend(a: seq<Attr>, b: seq<Attr>)
    ensures Attrs(a + b) == Attrs(a) + Attrs(b)
    decreases |a|
  {
    if |a| == 0 {
      assert a + b == b;
    } else {
      assert (a + b)[1..] == a[1..] + b;
      AttrsAppend(a[1..], b);
    }
  }

  /** Every attribute adds its name, its value and four characters of markup. */
  lemma {:induction false} AttrsLength(attrs: seq<Attr>)
    ensures |Attrs(attrs)| == Sum(attrs)
    decreases |attrs|
  {
    if |attrs| > 0 {
      AttrsLength(attrs[1..]);
    }
  }

  function Sum(attrs: seq<Attr>): nat
    decreases |attrs|
  {
    if |attrs| == 0 then 0 else 4 + |attrs[0].0| + |attrs[0].1| + Sum(attrs[1..])
  }

  /** `createSVGElement(tagname, attributes, subElements)`: without children
      the element closes itself; with children they are concatenated between
      the opening tag and a matching closing tag. */
  function CreateSvgElement(tag: string, attrs: seq<Attr>, children: Option<seq<string>>): (r: string)
    ensures |r| > 1 + |tag| && r[..1 + |tag|] == "<" + tag
    ensures children.None? ==> r == "<" + tag + Attrs(attrs) + " />"
    ensures children.Some? ==>
              r == "<" + tag + Attrs(attrs) + ">" + Concat(children.value) + "</" + tag + ">"
  {
    var open := "<" + tag + Attrs(attrs);
    assert open[..1 + |tag|] == "<" + tag;
    match children
    case None => open + " />"
    case Some(cs) => open + ">" + Concat(cs) + "</" + tag + ">"
  }

  const SvgNamespace := "http://www.w3.org/2000/svg"
  const DocumentPrefix := "<svg xmlns=\"" + SvgNamespace + "\"><filter id=\"filter\">"
  const DocumentSuffix := "</filter></svg>"

  /** `createSVG(filterElements)`. */
  function CreateSvg(elements: seq<string>): (r: string)
    ensures |r| == |DocumentPrefix| + |Concat(elements)| + |DocumentSuffix|
    ensures r[..|DocumentPrefix|] == DocumentPrefix
    ensures r[|DocumentPrefix|..|r| - |DocumentSuffix|] == Concat(elements)
    ensures r[|r| - |DocumentSuffix|..] == DocumentSuffix
  {
    DocumentPrefix + Concat(elements) + DocumentSuffix
  }

  /** Recovers the primitives' markup from a filter document: the inverse of `CreateSvg`. */
  function FilterBody(doc: string): (body: Option<string>)
    ensures body.Some? ==> DocumentPrefix + body.value + DocumentSuffix == doc
  {
    var p := |DocumentPrefix|;
    var q := |DocumentSuffix|;
    if |doc| >= p + q && doc[..p] == DocumentPrefix && doc[|doc| - q..] == DocumentSuffix
    then
      var b := doc[p..|doc| - q];
      assert doc == doc[..p] + b + doc[|doc| - q..];
      Some(b)
    else None
  }

  /** The document keeps the primitives in order and nothing else varies:
      `FilterBody` recovers exactly the concatenated primitives. */
  lemma CreateSvgRoundTrip(elements: seq<string>)
    ensures FilterBody(CreateSvg(elements)) == Some(Concat(elements))
  {
    var doc := CreateSvg(elements);
    assert doc[|DocumentPrefix|..|doc| - |DocumentSuffix|] == Concat(elements);
  }

  /** Splitting the primitive list anywhere splits the document body at the same point. */
  lemma CreateSvgAppend(a: seq<string>, b: seq<string>)
    ensures CreateSvg(a + b) == DocumentPrefix + Concat(a) + Concat(b) + DocumentSuffix
  {
    ConcatAppend(a, b);
  }
}
