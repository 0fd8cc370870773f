/**
 * The part of an XML document the CellML parser looks at: an element's
 * qualified tag, its attributes and its children, in document order.
 * Tags are in ElementTree's Clark notation, "{namespace-uri}local-name".
 */
module Xml {
  import opened Wrappers

  type Attrs = map<string, string>

  datatype Element = Element(tag: string, attrs: Attrs, children: seq<Element>)

  /** The namespaces of a CellML 1.0 document (parser.py, class XmlNs). */
  datatype XmlNs = Cellml | Cmeta | MathMl | Rdf {
    function Uri(): string {
      match this
      case Cellml => "http://www.cellml.org/cellml/1.0#"
      case Cmeta => "http://www.cellml.org/metadata/1.0#"
      case MathMl => "http://www.w3.org/1998/Math/MathML"
      case Rdf => "http://www.w3.org/1999/02/22-rdf-syntax-ns#"
    }
  }

  /** Parser.with_ns: the Clark-notation name of `name` in namespace `ns`. */
  function WithNs(ns: XmlNs, name: string): string {
    "{" + ns.Uri() + "}" + name
  }

  /** Index of the first '}' in s at or after i, or |s| if there is none. */
  function CloseBrace(s: string, i: nat): (j: nat)
    requires i <= |s|
    ensures i <= j <= |s|
    ensures j < |s| ==> s[j] == '}'
    ensures forall k :: i <= k < j ==> s[k] != '}'
    decreases |s| - i
  {
    if i == |s| || s[i] == '}' then i else CloseBrace(s, i + 1)
  }

  /** Reads a Clark-notation tag back into its namespace URI and local name. */
  function SplitClark(tag: string): Option<(string, string)> {
    if |tag| > 0 && tag[0] == '{' then
      var j := CloseBrace(tag, 1);
      if j < |tag| then Some((tag[1..j], tag[j + 1..])) else None
    else None
  }

  lemma UrisHaveNoBrace(ns: XmlNs)
    ensures '}' !in ns.Uri()
  {
  }

  /** A name built by WithNs reads back as the namespace and local name it was built from. */
  lemma WithNsRoundTrip(ns: XmlNs, name: string)
    ensures SplitClark(WithNs(ns, name)) == Some((ns.Uri(), name))
  {
    var uri := ns.Uri();
    var tag := WithNs(ns, name);
    var j := |uri| + 1;
    assert tag == "{" + uri + "}" + name;
    assert tag[1..j] == uri;
    assert tag[j + 1..] == name;
    UrisHaveNoBrace(ns);
    forall k | 1 <= k < j
      ensures tag[k] != '}'
    {
      assert tag[k] == tag[1..j][k - 1];
    }
    CloseBraceFirst(tag, 1, j);
  }

  lemma CloseBraceFirst(s: string, i: nat, j: nat)
    requires i <= j < |s| && s[j] == '}'
    requires forall k :: i <= k < j ==> s[k] != '}'
    ensures CloseBrace(s, i) == j
  {
  }

  /** Distinct namespaces or local names never produce the same tag. */
  lemma WithNsInjective(a: XmlNs, x: string, b: XmlNs, y: string)
    requires WithNs(a, x) == WithNs(b, y)
    ensures a == b && x == y
  {
    WithNsRoundTrip(a, x);
    WithNsRoundTrip(b, y);
    assert a.Uri() == b.Uri();
  }

  /** The children of `elements` whose tag is `tag`, in document order. */
  function Filter(elements: seq<Element>, tag: string): (r: seq<Element>)
    ensures |r| <= |elements|
  {
    if elements == [] then []
    else
      var rest := Filter(elements[1..], tag);
      if elements[0].tag == tag then [elements[0]] + rest else rest
  }

  /** Filter keeps exactly the elements with the tag. */
  lemma {:induction false} FilterExact(elements: seq<Element>, tag: string)
    ensures forall c :: c in Filter(elements, tag) <==> c in elements && c.tag == tag
  {
    if elements != [] {
      FilterExact(elements[1..], tag);
      assert elements == [elements[0]] + elements[1..];
    }
  }

  /**
   * Filtering keeps document order and multiplicity: the matches of a
   * concatenation are the matches of the first part followed by those of the second.
   */
  lemma {:induction false} FilterAppend(a: seq<Element>, b: seq<Element>, tag: string)
    ensures Filter(a + b, tag) == Filter(a, tag) + Filter(b, tag)
    decreases |a|
  {
    if a == [] {
      assert a + b == b;
    } else {
      var x, rest := a[0], a[1..];
      FilterAppend(rest, b, tag);
      assert (a + b)[0] == x;
      assert (a + b)[1..] == rest + b;
      var head := if x.tag == tag then [x] else [];
      assert Filter(a + b, tag) == head + Filter(rest + b, tag);
      assert Filter(a, tag) == head + Filter(rest, tag);
      assert head + (Filter(rest, tag) + Filter(b, tag)) == (head + Filter(rest, tag)) + Filter(b, tag);
    }
  }

  /** ElementTree's findall(tag): the direct children of e with that tag. */
  function FindAll(e: Element, tag: string): (r: seq<Element>)
    ensures forall c :: c in r ==> c in e.children && c.tag == tag
  {
    FilterExact(e.children, tag);
    Filter(e.children, tag)
  }

  /** findall returns exactly the children with the tag. */
  lemma FindAllExact(e: Element, tag: string)
    ensures forall c :: c in FindAll(e, tag) <==> c in e.children && c.tag == tag
  {
    FilterExact(e.children, tag);
  }

  /** ElementTree's attrib.get(key). */
  function Attr(e: Element, key: string): Option<string> {
    if key in e.attrs then Some(e.attrs[key]) else None
  }

  /** Python truthiness of an optional string: present and non-empty. */
  predicate Truthy(s: Option<string>) {
    s.Some? && s.value != ""
  }
}
