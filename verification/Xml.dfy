/** XML elements as the comparator reads them (`sxd_document`). */
module Xml {
  import opened Wrappers
  import opened Text
  import opened Grouping

  datatype QName = QName(space: Option<string>, local: string)

  datatype Node = ElementNode(element: Element) | TextNode(text: string) | OtherNode

  datatype Element = Element(name: QName, attributes: seq<(QName, string)>, children: seq<Node>)

  // `name`
  function NameText(name: QName): string {
    if name.space.Some? then name.space.value + ":" + name.local else name.local
  }

  function ElementName(e: Element): string {
    NameText(e.name)
  }

  // The attributes as a map; a name that is repeated keeps its last value.
  function AttributeMap(attributes: seq<(QName, string)>): map<string, string> {
    if attributes == [] then map[] else
      var n := |attributes| - 1;
      AttributeMap(attributes[..n])[NameText(attributes[n].0) := attributes[n].1]
  }

  // `children`: the nodes that are elements.
  function Elements(nodes: seq<Node>): seq<Element> {
    if nodes == [] then [] else
      var n := |nodes| - 1;
      var so := Elements(nodes[..n]);
      if nodes[n].ElementNode? then so + [nodes[n].element] else so
  }

  // The trimmed texts, put together.
  function TextOf(nodes: seq<Node>): string {
    if nodes == [] then "" else
      var n := |nodes| - 1;
      var so := TextOf(nodes[..n]);
      if nodes[n].TextNode? then so + Trim(nodes[n].text) else so
  }

  // The child elements with their names.
  function NamedChildren(e: Element): seq<(string, Element)> {
    Keyed(Elements(e.children), ElementName)
  }

  function ChildNames(e: Element): set<string> {
    KeysOf(NamedChildren(e))
  }

  // Every element of the group is a part of this one.
  ghost predicate PartsOf(group: seq<Element>, e: Element) {
    forall i :: 0 <= i < |group| ==> group[i] < e
  }

  lemma {:induction false} ElementsAreParts(nodes: seq<Node>, e: Element)
    requires forall i :: 0 <= i < |nodes| ==> nodes[i] < e
    ensures PartsOf(Elements(nodes), e)
  {
    if nodes != [] {
      ElementsAreParts(nodes[..|nodes| - 1], e);
    }
  }

  lemma {:induction false} ValuesAreParts(children: seq<Element>, name: string, e: Element)
    requires PartsOf(children, e)
    ensures PartsOf(ValuesOf(Keyed(children, ElementName), name), e)
    decreases |children|
  {
    if children != [] {
      var n := |children| - 1;
      assert Keyed(children, ElementName)[..n] == Keyed(children[..n], ElementName);
      ValuesAreParts(children[..n], name, e);
    }
  }

  // The children of a name, in order.
  function Group(e: Element, name: string): (group: seq<Element>)
    ensures PartsOf(group, e)
    ensures group != [] <==> name in ChildNames(e)
  {
    ElementsAreParts(e.children, e);
    ValuesAreParts(Elements(e.children), name, e);
    ValuesOfPresent(NamedChildren(e), name);
    ValuesOf(NamedChildren(e), name)
  }
}
