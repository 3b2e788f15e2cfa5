/**
 * The DOM trees the plugin reads with a JAXP document builder, reduced to what the core uses:
 * elements with attributes, text nodes and CDATA sections. Parsing XML text into such a tree is
 * not part of the model; `Render` gives the text a tree is written as, without any escaping,
 * the way the plugin writes its own XML.
 */
module Xml {
  import opened Wrappers

  datatype Node =
    | Element(name: string, attributes: seq<(string, string)>, children: seq<Node>)
    | Text(content: string)
    | CData(content: string)

  /** `Node.nodeName`. */
  function NodeName(n: Node): string {
    match n
    case Element(name, _, _) => name
    case Text(_) => "#text"
    case CData(_) => "#cdata-section"
  }

  function Lookup(attributes: seq<(string, string)>, key: string): (r: Option<string>)
    ensures r.Some? <==> exists i :: 0 <= i < |attributes| && attributes[i].0 == key
  {
    if attributes == [] then None
    else if attributes[0].0 == key then Some(attributes[0].1)
    else Lookup(attributes[1..], key)
  }

  /** `node.attributes[key]?.value`: text and CDATA nodes have no attributes. */
  function Attribute(n: Node, key: string): Option<string> {
    if n.Element? then Lookup(n.attributes, key) else None
  }

  /** `Node.children()`: the child nodes, none for text and CDATA nodes. */
  function ChildNodes(n: Node): seq<Node> {
    if n.Element? then n.children else []
  }

  /** `Sequence<Node>.children()`: the concatenation of the child lists, in order. */
  function AllChildren(ns: seq<Node>): (r: seq<Node>)
    ensures ns == [] ==> r == []
  {
    if ns == [] then [] else ChildNodes(ns[0]) + AllChildren(ns[1..])
  }

  lemma AllChildrenOne(n: Node)
    ensures AllChildren([n]) == ChildNodes(n)
  {
    assert [n][1..] == [];
  }

  lemma AllChildrenAppend(a: seq<Node>, b: seq<Node>)
    ensures AllChildren(a + b) == AllChildren(a) + AllChildren(b)
  {
    if a != [] {
      assert (a + b)[0] == a[0] && (a + b)[1..] == a[1..] + b;
      AllChildrenAppend(a[1..], b);
    } else {
      assert a + b == b;
    }
  }

  /** `Node.textContent`: the text of all descendant text and CDATA nodes, in document order. */
  function TextContent(n: Node): string
    decreases n
  {
    match n
    case Element(_, _, children) => TextContentAll(children)
    case Text(c) => c
    case CData(c) => c
  }

  function TextContentAll(ns: seq<Node>): string
    decreases ns
  {
    if ns == [] then "" else TextContent(ns[0]) + TextContentAll(ns[1..])
  }

  /** The first node of `ns` with the given node name (`firstOrNull { it.nodeName == name }`). */
  function FirstNamed(ns: seq<Node>, name: string): (r: Option<Node>)
    ensures r.Some? ==> r.value in ns && NodeName(r.value) == name
    ensures r.None? <==> forall i :: 0 <= i < |ns| ==> NodeName(ns[i]) != name
  {
    if ns == [] then None
    else if NodeName(ns[0]) == name then Some(ns[0])
    else FirstNamed(ns[1..], name)
  }

  lemma TextContentAllOne(n: Node)
    ensures TextContentAll([n]) == TextContent(n)
  {
    assert [n][1..] == [];
  }

  function RenderAttributes(attributes: seq<(string, string)>): string {
    if attributes == [] then ""
    else " " + attributes[0].0 + "=\"" + attributes[0].1 + "\"" + RenderAttributes(attributes[1..])
  }

  /** The start tag of an element. */
  function OpenTag(name: string, attributes: seq<(string, string)>): string {
    "<" + name + RenderAttributes(attributes) + ">"
  }

  /** The end tag of an element. */
  function CloseTag(name: string): string {
    "</" + name + ">"
  }

  /** The XML text of a node, written without escaping. */
  function Render(n: Node): string
    decreases n
  {
    match n
    case Element(name, attributes, children) =>
      OpenTag(name, attributes) + RenderAll(children) + CloseTag(name)
    case Text(c) => c
    case CData(c) => "<![CDATA[" + c + "]]>"
  }

  function RenderAll(ns: seq<Node>): string
    decreases ns
  {
    if ns == [] then "" else Render(ns[0]) + RenderAll(ns[1..])
  }

  lemma RenderAllOne(n: Node)
    ensures RenderAll([n]) == Render(n)
  {
    assert [n][1..] == [];
  }

  lemma RenderAllAppend(a: seq<Node>, b: seq<Node>)
    ensures RenderAll(a + b) == RenderAll(a) + RenderAll(b)
  {
    if a != [] {
      assert (a + b)[0] == a[0] && (a + b)[1..] == a[1..] + b;
      RenderAllAppend(a[1..], b);
    } else {
      assert a + b == b;
    }
  }

  /** The child nodes of an element whose content is the text `s`: none for empty content. */
  function TextNodes(s: string): (r: seq<Node>)
    ensures TextContentAll(r) == s && RenderAll(r) == s
  {
    if s == [] then [] else [Text(s)]
  }
}
