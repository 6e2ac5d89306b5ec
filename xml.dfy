/**
 * The parsed XML document as the navigator sees it through its tree
 * library: nodes with local tag names, attributes and ordered children,
 * and the three queries it makes of them (a node's text, the first child
 * with a given name, and the first descendant with a given name).
 */
module Xml {
  import opened Wrappers

  datatype Node =
    | Element(name: string, attributes: map<string, string>, children: seq<Node>)
    | Text(content: string)
    | Comment(content: string)
    | ProcessingInstruction(target: string)

  /** `tag_name().name()`: the local name of an element, and "" for every other kind of node. */
  function TagName(n: Node): string {
    if n.Element? then n.name else ""
  }

  /** `children()`: only elements have children. */
  function Children(n: Node): seq<Node> {
    if n.Element? then n.children else []
  }

  /** `text()` of an element: the text of its first child, when that child is a text node. */
  function ElementText(n: Node): Option<string>
    requires n.Element?
  {
    if |n.children| > 0 && n.children[0].Text? then Some(n.children[0].content) else None
  }

  /** `attribute(key)` */
  function Attribute(n: Node, key: string): Option<string> {
    if n.Element? && key in n.attributes then Some(n.attributes[key]) else None
  }

  /** `iter.find(|n| n.tag_name().name() == name)`: the first node carrying that name. */
  function FindNamed(ns: seq<Node>, name: string): (r: Option<Node>)
    ensures r.None? <==> forall i :: 0 <= i < |ns| ==> TagName(ns[i]) != name
    ensures r.Some? ==> exists i :: 0 <= i < |ns| && ns[i] == r.value && TagName(ns[i]) == name &&
                                    forall j :: 0 <= j < i ==> TagName(ns[j]) != name
  {
    if ns == [] then None
    else if TagName(ns[0]) == name then Some(ns[0])
    else
      var r := FindNamed(ns[1..], name);
      assert forall i :: 0 <= i < |ns| - 1 ==> ns[1..][i] == ns[i + 1];
      r
  }

  /** `descendants()`: the node itself, then the descendants of each child in order (pre-order). */
  function Descendants(n: Node): (r: seq<Node>)
    ensures |r| > 0 && r[0] == n
    decreases n, 1
  {
    if n.Element? then [n] + DescendantsOfAll(n.children) else [n]
  }

  function DescendantsOfAll(ns: seq<Node>): seq<Node>
    decreases ns, 0
  {
    if ns == [] then [] else Descendants(ns[0]) + DescendantsOfAll(ns[1..])
  }

  /** Every child of a node is among its descendants, after the node itself. */
  lemma {:induction false} ChildrenAreDescendants(n: Node, i: nat)
    requires i < |Children(n)|
    ensures Children(n)[i] in Descendants(n)[1..]
  {
    ChildInAll(Children(n), i);
    assert Descendants(n)[1..] == DescendantsOfAll(Children(n));
  }

  lemma {:induction false} ChildInAll(ns: seq<Node>, i: nat)
    requires i < |ns|
    ensures ns[i] in DescendantsOfAll(ns)
    decreases |ns|
  {
    if i == 0 {
      assert Descendants(ns[0])[0] == ns[0];
    } else {
      ChildInAll(ns[1..], i - 1);
    }
  }
}
