/** The two helpers that turn the matches of an XPath expression into tag
    nodes. What an expression matches is HtmlCleaner's business and is not
    modelled: the helpers receive the matches, in document order. */
module Selectors {
  import opened Results

  /** A tag node as the spider reads it: its name, its text (getText), its
      attributes, and the `<li>` elements found below it at any depth
      (getElementListByName("li", true)), in document order. */
  datatype Node = Node(name: string, text: string, attributes: map<string, string>, listItems: seq<Node>)

  /** new TagNode("empty"): no text, no attributes, nothing below it. */
  const Empty: Node := Node("empty", "", map[], [])

  /** getAttributeByName: the value, or None where Java returns null. */
  function Attribute(node: Node, key: string): (r: Option<string>)
    ensures r.Some? <==> key in node.attributes
    ensures r.Some? ==> r.value == node.attributes[key]
  {
    if key in node.attributes then Some(node.attributes[key]) else None
  }

  /** XPathEval: the match at index i; an index outside the matches (a
      negative one, or any index when nothing matched) yields the sentinel
      node instead of an exception. */
  function XPathEval(matches: seq<Node>, i: int): (r: Node)
    ensures 0 <= i < |matches| ==> r == matches[i]
    ensures !(0 <= i < |matches|) ==> r == Empty
  {
    if 0 <= i < |matches| then matches[i] else Empty
  }

  /** The sentinel carries no text and no attributes, so every attribute
      lookup on it comes back null. */
  lemma EmptyHasNothing(key: string)
    ensures Empty.text == [] && Empty.listItems == []
    ensures Attribute(Empty, key) == None
  {
  }

  /** With no match at all, every index yields the sentinel. */
  lemma XPathEvalNoMatch(i: int)
    ensures XPathEval([], i) == Empty
  {
  }

  /** CumulativeXPathEval: a new array holding every match, in order. */
  method CumulativeXPathEval(matches: seq<Node>) returns (nodes: array<Node>)
    ensures fresh(nodes)
    ensures nodes[..] == matches
  {
    nodes := new Node[|matches|](_ => Empty);
    for i := 0 to |matches|
      invariant nodes[..i] == matches[..i]
    {
      nodes[i] := matches[i];
    }
  }
}
