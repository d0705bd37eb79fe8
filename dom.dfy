/** An abstract W3C DOM tree: the node kinds and the queries the XML-RPC codec uses
    (getElementsByTagName, getChildNodes, getTextContent, setTextContent, String.trim). */
module Dom {

  datatype Option<+T> = None | Some(value: T)

  /** A DOM node. `Comment` stands for every node that is neither an element nor text
      (comments, processing instructions): element scans skip it and it adds nothing to
      the text content. A CDATA section behaves as `Text` for every query modelled here. */
  datatype Node =
    | Element(tag: string, children: seq<Node>)
    | Text(data: string)
    | Comment(data: string)

  /** One entry of the NodeList that getElementsByTagName returns: the element found
      and the node name of its parent (what `getParentNode().getNodeName()` yields). */
  datatype Item = Item(parentName: string, element: Node)

  /** The node name of a Document node, which is the parent of the root element. */
  const DocumentName: string := "#document"

  /** Node.getChildNodes: a text or comment node has no children. */
  function Children(n: Node): seq<Node>
  {
    match n
    case Element(_, cs) => cs
    case _ => []
  }

  /** Node.getTextContent: the text of every descendant text node, in document order. */
  function TextContent(n: Node): string
  {
    match n
    case Element(_, cs) => TextContentAll(cs)
    case Text(s) => s
    case Comment(_) => ""
  }

  function TextContentAll(cs: seq<Node>): string
  {
    if cs == [] then "" else TextContent(cs[0]) + TextContentAll(cs[1..])
  }

  /** The elements named `tag` in the subtree rooted at `n`, `n` itself included, in
      document (pre-)order; `parentName` is the name of `n`'s parent. */
  function ByTag(n: Node, parentName: string, tag: string): (r: seq<Item>)
    ensures forall i :: 0 <= i < |r| ==> r[i].element.Element? && r[i].element.tag == tag
    ensures n.Element? && n.tag == tag ==> r != [] && r[0] == Item(parentName, n)
    ensures !n.Element? ==> r == []
  {
    match n
    case Element(t, cs) => (if t == tag then [Item(parentName, n)] else []) + ByTagAll(cs, t, tag)
    case _ => []
  }

  /** The elements named `tag` in the subtrees rooted at `cs`, siblings whose parent is named `parentName`. */
  function ByTagAll(cs: seq<Node>, parentName: string, tag: string): (r: seq<Item>)
    ensures forall i :: 0 <= i < |r| ==> r[i].element.Element? && r[i].element.tag == tag
  {
    if cs == [] then [] else ByTag(cs[0], parentName, tag) + ByTagAll(cs[1..], parentName, tag)
  }

  /** Scanning one node as a list of siblings scans that node. */
  lemma {:induction false} ByTagAllOne(a: Node, parentName: string, tag: string)
    ensures ByTagAll([a], parentName, tag) == ByTag(a, parentName, tag)
  {
    assert [a][1..] == [];
  }

  /** Scanning two siblings scans the first, then the second. */
  lemma {:induction false} ByTagAllTwo(a: Node, b: Node, parentName: string, tag: string)
    ensures ByTagAll([a, b], parentName, tag) == ByTag(a, parentName, tag) + ByTag(b, parentName, tag)
  {
    assert [a, b][1..] == [b];
    ByTagAllOne(b, parentName, tag);
  }

  /** Document.getElementsByTagName: the scan starts at the root element and includes it. */
  function DocumentElementsByTagName(root: Node, tag: string): seq<Item>
  {
    ByTag(root, DocumentName, tag)
  }

  /** Element.getElementsByTagName: only the descendants of `e`, never `e` itself. */
  function ElementsByTagName(e: Node, tag: string): seq<Item>
  {
    ByTagAll(Children(e), if e.Element? then e.tag else "", tag)
  }

  /** Index of the first child that is an element node (the loops that test
      `getNodeType() == ELEMENT_NODE` and stop at the first hit). */
  function FirstElementChild(cs: seq<Node>): (r: Option<nat>)
    ensures r.Some? ==> r.value < |cs| && cs[r.value].Element?
    ensures r.Some? ==> forall j :: 0 <= j < r.value ==> !cs[j].Element?
    ensures r.None? ==> forall j :: 0 <= j < |cs| ==> !cs[j].Element?
  {
    if cs == [] then None
    else if cs[0].Element? then Some(0)
    else match FirstElementChild(cs[1..])
      case None => None
      case Some(k) => Some(k + 1)
  }

  /** createElement(tag) followed by setTextContent(s): the element gets a single text
      child, or none at all when `s` is empty. */
  function WithText(tag: string, s: string): (e: Node)
    ensures e.Element? && e.tag == tag
    ensures s == "" ==> e.children == []
    ensures s != "" ==> e.children == [Text(s)]
    ensures TextContent(e) == s
    ensures forall p, t :: ByTagAll(Children(e), p, t) == []
    ensures forall p, t :: ByTag(e, p, t) == if t == tag then [Item(p, e)] else []
    ensures FirstElementChild(Children(e)) == None
  {
    var cs := if s == "" then [] else [Text(s)];
    assert s != "" ==> TextContentAll(cs) == s + TextContentAll([]);
    assert forall p, t :: ByTagAll(cs, p, t) == [] by {
      forall p, t ensures ByTagAll(cs, p, t) == [] {
        if s != "" { ByTagAllOne(Text(s), p, t); }
      }
    }
    Element(tag, cs)
  }

  /** Whitespace in the sense of String.trim: every character up to U+0020. */
  predicate IsBlank(c: char)
  {
    c <= ' '
  }

  /** How many characters String.trim drops from the front of `s`. */
  function LeadingBlanks(s: string): (n: nat)
    ensures n <= |s|
    ensures forall i :: 0 <= i < n ==> IsBlank(s[i])
    ensures n < |s| ==> !IsBlank(s[n])
  {
    if s == [] || !IsBlank(s[0]) then 0 else 1 + LeadingBlanks(s[1..])
  }

  /** How many characters String.trim drops from the back of `s`. */
  function TrailingBlanks(s: string): (n: nat)
    ensures n <= |s|
    ensures forall i :: |s| - n <= i < |s| ==> IsBlank(s[i])
    ensures n < |s| ==> !IsBlank(s[|s| - 1 - n])
  {
    if s == [] || !IsBlank(s[|s| - 1]) then 0 else 1 + TrailingBlanks(s[..|s| - 1])
  }

  /** String.trim: `s` without its leading and trailing characters up to U+0020; an
      all-blank string trims to the empty string. */
  function Trim(s: string): (r: string)
    ensures LeadingBlanks(s) + |r| <= |s| && r == s[LeadingBlanks(s)..LeadingBlanks(s) + |r|]
    ensures forall i :: LeadingBlanks(s) + |r| <= i < |s| ==> IsBlank(s[i])
    ensures r == [] || (!IsBlank(r[0]) && !IsBlank(r[|r| - 1]))
  {
    var rest := s[LeadingBlanks(s)..];
    rest[..|rest| - TrailingBlanks(rest)]
  }
}
