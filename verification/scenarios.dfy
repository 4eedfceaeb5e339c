/**
  Small documents and the exact records the differ produces for them,
  whatever order the maps visit their keys in.
 */
module DifferScenarios {
  import opened XmlTree
  import opened Grouping
  import opened Differ
  import opened DifferProperties
  import opened DifferInvariance

  /** A duplicate-free sequence holding only `x`, and holding it, is `[x]`. */
  lemma SingleKey(ks: seq<string>, x: string)
    requires Distinct(ks)
    requires forall n :: n in ks <==> n == x
    ensures ks == [x]
  {
    assert x in ks;
    forall n
      ensures multiset(ks)[n] == multiset{x}[n]
    {
      assert n in ks <==> n in multiset(ks);
    }
    assert multiset(ks) == multiset{x};
    assert |ks| == |multiset(ks)| == 1;
    assert ks[0] in ks;
  }

  /** A duplicate-free sequence holding exactly `x` and `y` lists them in one order or the other. */
  lemma TwoKeys(ks: seq<string>, x: string, y: string)
    requires x != y && Distinct(ks)
    requires forall n :: n in ks <==> n == x || n == y
    ensures ks == [x, y] || ks == [y, x]
  {
    assert x in ks;
    assert ks[0] in ks;
    DistinctSplit(ks);
    var z := if ks[0] == x then y else x;
    assert ks == [ks[0]] + ks[1..];
    forall n
      ensures n in ks[1..] <==> n == z
    {
      assert n in ks <==> n == ks[0] || n in ks[1..];
    }
    SingleKey(ks[1..], z);
  }

  lemma GroupOne(x: XmlNode)
    ensures Group([x]) == map[x.name := x]
  {
    assert [x][..0] == [];
  }

  lemma GroupTwo(x: XmlNode, y: XmlNode)
    ensures Group([x, y]) == map[x.name := x][y.name := y]
  {
    assert [x, y][..1] == [x];
    GroupOne(x);
  }

  /** The first loop over two keys: the two pieces in turn. */
  lemma MissingPassTwo(e: XmlNode, f: XmlNode, path: string, k1: string, k2: string, ord: KeyOrder)
    requires k1 in Group(e.children) && k2 in Group(e.children)
    ensures MissingPass(e, f, path, [k1, k2], ord)
            == MissingPiece(e, f, path, k1, ord) + MissingPiece(e, f, path, k2, ord)
  {
    MissingPassAppend(e, f, path, [k1], [k2], ord);
    MissingPassOne(e, f, path, k1, ord);
    MissingPassOne(e, f, path, k2, ord);
  }

  /** The first loop over one key: that key's piece. */
  lemma MissingPassOne(e: XmlNode, f: XmlNode, path: string, k: string, ord: KeyOrder)
    requires k in Group(e.children)
    ensures MissingPass(e, f, path, [k], ord) == MissingPiece(e, f, path, k, ord)
  {
    assert [k][1..] == [];
  }

  /** The second loop over two keys: the extra records for each in turn. */
  lemma ExtraPassTwo(e: XmlNode, path: string, k1: string, k2: string)
    ensures ExtraPass(e, path, [k1, k2]) == ExtraPass(e, path, [k1]) + ExtraPass(e, path, [k2])
  {
    assert [k1, k2][1..] == [k2];
    assert [k2][1..] == [];
    assert [k1][1..] == [];
  }

  /**
    An expected node with children `a` and `b` (of different names)
    against an actual node of the same name with only `a`: the one record
    says that `b` is missing.
   */
  lemma CompareSameName(e: XmlNode, f: XmlNode, p: string, ord: KeyOrder)
    requires e.name == f.name
    ensures Compare(e, f, p, ord) == MissingPass(e, f, p + "/" + e.name, KeyIteration(e.children, ord), ord)
                                      + ExtraPass(e, p + "/" + e.name, KeyIteration(f.children, ord))
  {
  }

  lemma MissingSecondChildPasses(e: XmlNode, f: XmlNode, a: XmlNode, b: XmlNode, path: string, ord: KeyOrder)
    requires a.name != b.name && e.children == [a, b] && f.children == [a]
    ensures MissingPass(e, f, path, KeyIteration(e.children, ord), ord) == [MissingLine(path, b.name)]
  {
    var ek := KeyIteration(e.children, ord);
    TwoChildKeys(e, a, b, ord);
    SecondChildPieces(e, f, a, b, path, ord);
    MissingPassTwo(e, f, path, ek[0], ek[1], ord);
    assert ek == [ek[0], ek[1]];
  }

  /** The keys of a node with two children of different names: both names, in either order. */
  lemma TwoChildKeys(e: XmlNode, a: XmlNode, b: XmlNode, ord: KeyOrder)
    requires a.name != b.name && e.children == [a, b]
    ensures a.name in Group(e.children) && b.name in Group(e.children)
    ensures var ek := KeyIteration(e.children, ord);
            ek == [a.name, b.name] || ek == [b.name, a.name]
  {
    GroupTwo(a, b);
    TwoKeys(KeyIteration(e.children, ord), a.name, b.name);
  }

  /** The two rounds of the first loop: nothing for the shared child, a missing record for the other. */
  lemma SecondChildPieces(e: XmlNode, f: XmlNode, a: XmlNode, b: XmlNode, path: string, ord: KeyOrder)
    requires a.name != b.name && e.children == [a, b] && f.children == [a]
    ensures a.name in Group(e.children) && b.name in Group(e.children)
    ensures MissingPiece(e, f, path, a.name, ord) == []
    ensures MissingPiece(e, f, path, b.name, ord) == [MissingLine(path, b.name)]
  {
    GroupTwo(a, b);
    GroupOne(a);
    CompareSelfIsEmpty(a, path, ord);
  }

  lemma ExtraOnlyShared(e: XmlNode, f: XmlNode, a: XmlNode, path: string, ord: KeyOrder)
    requires a in e.children && f.children == [a]
    ensures ExtraPass(e, path, KeyIteration(f.children, ord)) == []
  {
    var fk := KeyIteration(f.children, ord);
    GroupOne(a);
    SingleKey(fk, a.name);
    GroupKeepsLastSibling(e.children);
    assert a.name in NameSet(e.children);
    assert fk[1..] == [];
  }

  lemma MissingSecondChild(r: string, a: XmlNode, b: XmlNode, p: string, ord: KeyOrder)
    requires a.name != b.name
    ensures Compare(XmlNode(r, [a, b]), XmlNode(r, [a]), p, ord) == [MissingLine(p + "/" + r, b.name)]
  {
    var e, f := XmlNode(r, [a, b]), XmlNode(r, [a]);
    CompareSameName(e, f, p, ord);
    MissingSecondChildPasses(e, f, a, b, p + "/" + r, ord);
    ExtraOnlyShared(e, f, a, p + "/" + r, ord);
  }

  /**
    An expected node with child `a` against an actual node of the same
    name with children `a` and `c` (of different names): the one record
    says that `c` is extra.
   */
  lemma ExtraSecondChild(r: string, a: XmlNode, c: XmlNode, p: string, ord: KeyOrder)
    requires a.name != c.name
    ensures Compare(XmlNode(r, [a]), XmlNode(r, [a, c]), p, ord) == [ExtraLine(p + "/" + r, c.name)]
  {
    var e, f := XmlNode(r, [a]), XmlNode(r, [a, c]);
    var path := p + "/" + r;
    assert MissingPass(e, f, path, KeyIteration(e.children, ord), ord) == [] by {
      assert a.name in Group(f.children) && Group(f.children)[a.name] == a by {
        GroupTwo(a, c);
      }
      MissingOnlyShared(e, f, a, path, ord);
    }
    ExtraSecondChildPass(e, f, a, c, path, ord);
    CompareSameName(e, f, p, ord);
  }

  /** An expected node whose only child `a` meets an equal child of the same name on the actual side. */
  lemma MissingOnlyShared(e: XmlNode, f: XmlNode, a: XmlNode, path: string, ord: KeyOrder)
    requires e.children == [a] && a.name in Group(f.children) && Group(f.children)[a.name] == a
    ensures MissingPass(e, f, path, KeyIteration(e.children, ord), ord) == []
  {
    var ek := KeyIteration(e.children, ord);
    assert Group(e.children) == map[a.name := a] by {
      GroupOne(a);
    }
    assert ek == [a.name] by {
      SingleKey(ek, a.name);
    }
    assert MissingPiece(e, f, path, a.name, ord) == [] by {
      CompareSelfIsEmpty(a, path, ord);
    }
    MissingPassOne(e, f, path, a.name, ord);
  }

  lemma ExtraSecondChildPass(e: XmlNode, f: XmlNode, a: XmlNode, c: XmlNode, path: string, ord: KeyOrder)
    requires a.name != c.name && e.children == [a] && f.children == [a, c]
    ensures ExtraPass(e, path, KeyIteration(f.children, ord)) == [ExtraLine(path, c.name)]
  {
    var fk := KeyIteration(f.children, ord);
    assert Group(e.children) == map[a.name := a] by {
      GroupOne(a);
    }
    assert Group(f.children) == map[a.name := a][c.name := c] by {
      GroupTwo(a, c);
    }
    TwoKeys(fk, a.name, c.name);
    ExtraPassTwo(e, path, fk[0], fk[1]);
    assert ExtraPass(e, path, [a.name]) == [] by {
      assert [a.name][1..] == [];
    }
    assert ExtraPass(e, path, [c.name]) == [ExtraLine(path, c.name)] by {
      assert [c.name][1..] == [];
    }
  }

  /**
    `<root><a/><b/></root>` expected, `<root><a/></root>` found: the one
    record says that `/root/b` is missing.
   */
  lemma MissingChildScenario(ord: KeyOrder)
    ensures var a, b := XmlNode("a", []), XmlNode("b", []);
            Compare(XmlNode("root", [a, b]), XmlNode("root", [a]), "", ord) == ["缺失: /root/b"]
  {
    var a, b := XmlNode("a", []), XmlNode("b", []);
    assert a.name != b.name by {
      assert a.name[0] != b.name[0];
    }
    MissingSecondChild("root", a, b, "", ord);
    MissingRecordText();
  }

  lemma MissingRecordText()
    ensures MissingLine("" + "/" + "root", "b") == "缺失: /root/b"
  {
  }

  /**
    `<root><a/></root>` expected, `<root><a/><c/></root>` found: the one
    record says that `/root/c` is extra.
   */
  lemma ExtraChildScenario(ord: KeyOrder)
    ensures var a, c := XmlNode("a", []), XmlNode("c", []);
            Compare(XmlNode("root", [a]), XmlNode("root", [a, c]), "", ord) == ["多余: /root/c"]
  {
    var a, c := XmlNode("a", []), XmlNode("c", []);
    assert a.name != c.name by {
      assert a.name[0] != c.name[0];
    }
    ExtraSecondChild("root", a, c, "", ord);
    ExtraRecordText();
  }

  lemma ExtraRecordText()
    ensures ExtraLine("" + "/" + "root", "c") == "多余: /root/c"
  {
  }

  /**
    Different root names: one mismatch record under the empty path, and
    nothing about the children.
   */
  lemma RootMismatchScenario(ord: KeyOrder)
    ensures var a := XmlNode("a", []);
            Compare(XmlNode("root", [a]), XmlNode("other", []), "", ord) == ["节点不一致:  期望=root 实际=other"]
  {
    assert MismatchLine("", "root", "other") == "节点不一致:  期望=root 实际=other";
  }
}
