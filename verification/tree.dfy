/**
  The differ's tree of tag names, the parser's DOM it is built from, and
  the tree builder (`XmlDiffChecker.buildTree`).

  Only element structure matters: the builder keeps every element child,
  in document order, under its tag name, and drops text, comments and
  processing instructions.
 */
module XmlTree {
  import opened Seqs

  /** One element as the differ sees it: its tag name and its element children in document order. */
  datatype XmlNode = XmlNode(name: string, children: seq<XmlNode>)

  /** A node of the parsed document, as the XML parser delivers it. */
  datatype Dom =
    | Element(tag: string, childNodes: seq<Dom>)
    | Text(data: string)
    | Comment(data: string)
    | ProcessingInstruction(target: string, data: string)

  /** The element nodes among `nodes`, in document order. */
  function Elements(nodes: seq<Dom>): (r: seq<Dom>)
    ensures |r| <= |nodes|
    ensures forall i | 0 <= i < |r| :: r[i].Element? && r[i] in nodes
    ensures forall i | 0 <= i < |nodes| && nodes[i].Element? :: nodes[i] in r
    ensures (forall i | 0 <= i < |nodes| :: nodes[i].Element?) ==> r == nodes
    decreases |nodes|
  {
    if |nodes| == 0 then []
    else
      var init := nodes[..|nodes| - 1];
      var last := nodes[|nodes| - 1];
      assert nodes == init + [last];
      Elements(init) + (if last.Element? then [last] else [])
  }

  /**
    The elements of two runs of nodes, one after the other, are those of
    the first run followed by those of the second: document order is kept.
   */
  lemma {:induction false} ElementsAppend(s: seq<Dom>, t: seq<Dom>)
    ensures Elements(s + t) == Elements(s) + Elements(t)
    decreases |t|
  {
    if |t| == 0 {
      assert s + t == s;
    } else {
      var init, last := t[..|t| - 1], t[|t| - 1];
      assert (s + t)[..|s + t| - 1] == s + init;
      assert (s + t)[|s + t| - 1] == last;
      ElementsAppend(s, init);
      AppendAssociates(Elements(s), Elements(init), if last.Element? then [last] else []);
    }
  }

  /** A single node contributes itself when it is an element and nothing otherwise. */
  lemma ElementsOfOne(x: Dom)
    ensures Elements([x]) == if x.Element? then [x] else []
  {
    assert [x][..0] == [];
  }

  /**
    The tree of an element: one child per element child of `d`, in
    document order, each carrying that child's tag name.
   */
  function BuildTree(d: Dom): (t: XmlNode)
    requires d.Element?
    ensures t.name == d.tag
    ensures |t.children| == |Elements(d.childNodes)|
    ensures forall i | 0 <= i < |t.children| ::
              t.children[i].name == Elements(d.childNodes)[i].tag
    ensures forall i | 0 <= i < |t.children| ::
              t.children[i] == BuildTree(Elements(d.childNodes)[i])
    decreases d, 1, 0
  {
    assert d.childNodes[..|d.childNodes|] == d.childNodes;
    XmlNode(d.tag, BuildChildren(d, |d.childNodes|))
  }

  /** The loop of the builder after it has looked at the first `k` child nodes of `d`. */
  function BuildChildren(d: Dom, k: nat): (r: seq<XmlNode>)
    requires d.Element? && k <= |d.childNodes|
    ensures |r| == |Elements(d.childNodes[..k])|
    ensures forall i | 0 <= i < |r| ::
              r[i].name == Elements(d.childNodes[..k])[i].tag
    ensures forall i | 0 <= i < |r| ::
              r[i] == BuildTree(Elements(d.childNodes[..k])[i])
    decreases d, 0, k
  {
    if k == 0 then []
    else
      var c := d.childNodes[k - 1];
      assert d.childNodes[..k] == d.childNodes[..k - 1] + [c];
      assert d.childNodes[..k][..k - 1] == d.childNodes[..k - 1];
      BuildChildren(d, k - 1) + (if c.Element? then [BuildTree(c)] else [])
  }

  /** The document a tree stands for: every node an element, no other content. */
  function ToDom(t: XmlNode): (d: Dom)
    ensures d.Element? && d.tag == t.name && |d.childNodes| == |t.children|
    decreases t
  {
    Element(t.name, seq(|t.children|, i requires 0 <= i < |t.children| => ToDom(t.children[i])))
  }

  /** `d` with every non-element node removed, at every depth. */
  function Strip(d: Dom): (s: Dom)
    requires d.Element?
    ensures s.Element? && s.tag == d.tag
    decreases d
  {
    var es := Elements(d.childNodes);
    Element(d.tag, seq(|es|, i requires 0 <= i < |es| => Strip(es[i])))
  }

  /** Building the tree of a tree's own document gives the tree back. */
  lemma {:induction false} BuildTreeOfToDom(t: XmlNode)
    ensures BuildTree(ToDom(t)) == t
    decreases t
  {
    var d := ToDom(t);
    assert Elements(d.childNodes) == d.childNodes by {
      forall i | 0 <= i < |d.childNodes|
        ensures d.childNodes[i].Element?
      {
        assert d.childNodes[i] == ToDom(t.children[i]);
      }
    }
    var b := BuildTree(d);
    forall i | 0 <= i < |t.children|
      ensures b.children[i] == t.children[i]
    {
      assert b.children[i] == BuildTree(ToDom(t.children[i])) by {
        assert d.childNodes[i] == ToDom(t.children[i]);
      }
      BuildTreeOfToDom(t.children[i]);
    }
  }

  /** The builder loses exactly the non-element content of the document. */
  lemma {:induction false} ToDomOfBuildTree(d: Dom)
    requires d.Element?
    ensures ToDom(BuildTree(d)) == Strip(d)
    decreases d
  {
    var t := BuildTree(d);
    var es := Elements(d.childNodes);
    forall i | 0 <= i < |es|
      ensures ToDom(t.children[i]) == Strip(es[i])
    {
      ToDomOfBuildTree(es[i]);
    }
  }
}
