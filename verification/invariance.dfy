/**
  What the differ's output does NOT depend on.

  - Children hidden by a later same-named sibling: the children maps keep
    only the last child of each name, so the earlier ones are never
    compared and never reported. Dropping one changes no record's count,
    but it may change the order of the records, because it can move the
    first insertion of a name and with it the key order.
  - The order in which the hash maps hand out their keys: a different
    order reorders the records but yields the same records, each as often.
 */
module DifferInvariance {
  import opened XmlTree
  import opened Grouping
  import opened Differ
  import opened DifferProperties
  import opened Seqs

  // ---------------------------------------------------------------------
  // Only the children maps matter
  // ---------------------------------------------------------------------

  lemma {:induction false} MissingPassSameMaps(e1: XmlNode, e2: XmlNode, a1: XmlNode, a2: XmlNode,
                                               path: string, keys: seq<string>, ord: KeyOrder)
    requires Group(e1.children) == Group(e2.children) && Group(a1.children) == Group(a2.children)
    requires forall k | k in keys :: k in Group(e1.children)
    ensures MissingPass(e1, a1, path, keys, ord) == MissingPass(e2, a2, path, keys, ord)
    decreases |keys|
  {
    if |keys| > 0 {
      MissingPassSameMaps(e1, e2, a1, a2, path, keys[1..], ord);
      assert MissingPiece(e1, a1, path, keys[0], ord) == MissingPiece(e2, a2, path, keys[0], ord);
    }
  }

  lemma {:induction false} ExtraPassSameMaps(e1: XmlNode, e2: XmlNode, path: string, keys: seq<string>)
    requires Group(e1.children) == Group(e2.children)
    ensures ExtraPass(e1, path, keys) == ExtraPass(e2, path, keys)
    decreases |keys|
  {
    if |keys| > 0 {
      ExtraPassSameMaps(e1, e2, path, keys[1..]);
    }
  }

  /**
    Two calls whose nodes carry the same names and the same children maps
    append the same records, each as often: the differ never looks at a
    child that a later same-named sibling replaced in the map. (The order
    of the records may differ, since the maps may have been filled in a
    different order.)
   */
  lemma CompareSeesOnlyChildMaps(e1: XmlNode, e2: XmlNode, a1: XmlNode, a2: XmlNode, p: string, ord: KeyOrder)
    requires e1.name == e2.name && a1.name == a2.name
    requires Group(e1.children) == Group(e2.children) && Group(a1.children) == Group(a2.children)
    ensures multiset(Compare(e1, a1, p, ord)) == multiset(Compare(e2, a2, p, ord))
  {
    if e1.name == a1.name {
      var path := p + "/" + e1.name;
      var ek1, ek2 := KeyIteration(e1.children, ord), KeyIteration(e2.children, ord);
      var ak1, ak2 := KeyIteration(a1.children, ord), KeyIteration(a2.children, ord);
      DistinctSameElements(ek1, ek2);
      DistinctSameElements(ak1, ak2);
      MissingPassSameMaps(e1, e2, a1, a2, path, ek1, ord);
      MissingPassPermuted(e2, a2, path, ek1, ek2, ord, ord);
      ExtraPassSameMaps(e1, e2, path, ak1);
      ExtraPassPermuted(e2, path, ak1, ak2);
    }
  }

  /** Removing an expected child that a later sibling of the same name shadows changes no record's count. */
  lemma DropShadowedExpected(e: XmlNode, a: XmlNode, i: nat, j: nat, p: string, ord: KeyOrder)
    requires i < j < |e.children| && e.children[i].name == e.children[j].name
    ensures multiset(Compare(XmlNode(e.name, e.children[..i] + e.children[i + 1..]), a, p, ord))
            == multiset(Compare(e, a, p, ord))
  {
    ShadowedSiblingIsInvisible(e.children, i, j);
    CompareSeesOnlyChildMaps(XmlNode(e.name, e.children[..i] + e.children[i + 1..]), e, a, a, p, ord);
  }

  /** Removing an actual child that a later sibling of the same name shadows changes no record's count. */
  lemma DropShadowedActual(e: XmlNode, a: XmlNode, i: nat, j: nat, p: string, ord: KeyOrder)
    requires i < j < |a.children| && a.children[i].name == a.children[j].name
    ensures multiset(Compare(e, XmlNode(a.name, a.children[..i] + a.children[i + 1..]), p, ord))
            == multiset(Compare(e, a, p, ord))
  {
    ShadowedSiblingIsInvisible(a.children, i, j);
    CompareSeesOnlyChildMaps(e, e, XmlNode(a.name, a.children[..i] + a.children[i + 1..]), a, p, ord);
  }

  /**
    An expected node with two identical children against an actual node
    with one of them is reported as no difference at all, because the
    first child is overwritten in the map.
   */
  lemma RepeatedChildGoesUnreported(r: string, x: XmlNode, p: string, ord: KeyOrder)
    ensures Compare(XmlNode(r, [x, x]), XmlNode(r, [x]), p, ord) == []
  {
    var e, a := XmlNode(r, [x, x]), XmlNode(r, [x]);
    assert XmlNode(e.name, e.children[..0] + e.children[1..]) == a by {
      assert e.children[..0] + e.children[1..] == [x];
    }
    DropShadowedExpected(e, a, 0, 1, p, ord);
    CompareSelfIsEmpty(a, p, ord);
    assert |Compare(e, a, p, ord)| == |multiset(Compare(e, a, p, ord))| == 0;
  }

  // ---------------------------------------------------------------------
  // The key visiting order does not matter
  // ---------------------------------------------------------------------

  lemma {:induction false} MissingPassAppend(e: XmlNode, a: XmlNode, path: string, k1: seq<string>,
                                             k2: seq<string>, ord: KeyOrder)
    requires forall k | k in k1 + k2 :: k in Group(e.children)
    ensures MissingPass(e, a, path, k1 + k2, ord) == MissingPass(e, a, path, k1, ord) + MissingPass(e, a, path, k2, ord)
    decreases |k1|
  {
    if |k1| > 0 {
      assert (k1 + k2)[1..] == k1[1..] + k2;
      MissingPassAppend(e, a, path, k1[1..], k2, ord);
      AppendAssociates(MissingPiece(e, a, path, k1[0], ord), MissingPass(e, a, path, k1[1..], ord),
                       MissingPass(e, a, path, k2, ord));
    } else {
      assert k1 + k2 == k2;
    }
  }

  lemma {:induction false} ExtraPassAppend(e: XmlNode, path: string, k1: seq<string>, k2: seq<string>)
    ensures ExtraPass(e, path, k1 + k2) == ExtraPass(e, path, k1) + ExtraPass(e, path, k2)
    decreases |k1|
  {
    if |k1| > 0 {
      assert (k1 + k2)[1..] == k1[1..] + k2;
      ExtraPassAppend(e, path, k1[1..], k2);
    } else {
      assert k1 + k2 == k2;
    }
  }

  /** Dropping the key at `i` from the keys leaves exactly one piece fewer, as records counted. */
  lemma MissingPassRemoveAt(e: XmlNode, a: XmlNode, path: string, ks: seq<string>, i: nat, ord: KeyOrder)
    requires i < |ks|
    requires forall k | k in ks :: k in Group(e.children)
    ensures forall k | k in ks[..i] + ks[i + 1..] :: k in ks
    ensures multiset(MissingPass(e, a, path, ks, ord))
            == multiset(MissingPiece(e, a, path, ks[i], ord)) + multiset(MissingPass(e, a, path, ks[..i] + ks[i + 1..], ord))
  {
    var pre, post := ks[..i], ks[i + 1..];
    assert ks == pre + ([ks[i]] + post);
    assert forall k | k in pre + post :: k in ks;
    MissingPassAppend(e, a, path, pre, [ks[i]] + post, ord);
    assert ([ks[i]] + post)[1..] == post;
    MissingPassAppend(e, a, path, pre, post, ord);
  }

  lemma ExtraPassRemoveAt(e: XmlNode, path: string, ks: seq<string>, i: nat)
    requires i < |ks|
    ensures multiset(ExtraPass(e, path, ks))
            == multiset(ExtraPass(e, path, [ks[i]])) + multiset(ExtraPass(e, path, ks[..i] + ks[i + 1..]))
  {
    var pre, post := ks[..i], ks[i + 1..];
    assert ks == pre + ([ks[i]] + post);
    ExtraPassAppend(e, path, pre, [ks[i]] + post);
    ExtraPassAppend(e, path, [ks[i]], post);
    assert [ks[i]] + post == ([ks[i]] + post);
    ExtraPassAppend(e, path, pre, post);
  }

  /**
    Comparing the same trees under two key orders yields the same records,
    each the same number of times.
   */
  lemma {:induction false} CompareOrderIndependent(e: XmlNode, a: XmlNode, p: string, ord1: KeyOrder, ord2: KeyOrder)
    ensures multiset(Compare(e, a, p, ord1)) == multiset(Compare(e, a, p, ord2))
    decreases e, 2, 0
  {
    if e.name == a.name {
      var path := p + "/" + e.name;
      var ek1, ek2 := KeyIteration(e.children, ord1), KeyIteration(e.children, ord2);
      var ak1, ak2 := KeyIteration(a.children, ord1), KeyIteration(a.children, ord2);
      KeyIterationsArePermutations(e.children, ord1, ord2);
      KeyIterationsArePermutations(a.children, ord1, ord2);
      MissingPassPermuted(e, a, path, ek1, ek2, ord1, ord2);
      ExtraPassPermuted(e, path, ak1, ak2);
    }
  }

  lemma {:induction false} MissingPassPermuted(e: XmlNode, a: XmlNode, path: string, k1: seq<string>,
                                               k2: seq<string>, ord1: KeyOrder, ord2: KeyOrder)
    requires multiset(k1) == multiset(k2)
    requires forall k | k in k1 :: k in Group(e.children)
    requires forall k | k in k2 :: k in Group(e.children)
    ensures multiset(MissingPass(e, a, path, k1, ord1)) == multiset(MissingPass(e, a, path, k2, ord2))
    decreases e, 1, |k1|
  {
    if |k1| > 0 {
      var i := DropFirstOccurrence(k1, k2);
      MissingPassRemoveAt(e, a, path, k2, i, ord2);
      MissingPassPermuted(e, a, path, k1[1..], k2[..i] + k2[i + 1..], ord1, ord2);
      MissingPieceOrderIndependent(e, a, path, k1[0], ord1, ord2);
    } else {
      assert |k2| == |multiset(k2)| == 0;
    }
  }

  lemma {:induction false} MissingPieceOrderIndependent(e: XmlNode, a: XmlNode, path: string, k: string,
                                                        ord1: KeyOrder, ord2: KeyOrder)
    requires k in Group(e.children)
    ensures multiset(MissingPiece(e, a, path, k, ord1)) == multiset(MissingPiece(e, a, path, k, ord2))
    decreases e, 0, 0
  {
    var em, am := Group(e.children), Group(a.children);
    if k in am {
      CompareOrderIndependent(em[k], am[k], path, ord1, ord2);
    }
  }

  lemma {:induction false} ExtraPassPermuted(e: XmlNode, path: string, k1: seq<string>, k2: seq<string>)
    requires multiset(k1) == multiset(k2)
    ensures multiset(ExtraPass(e, path, k1)) == multiset(ExtraPass(e, path, k2))
    decreases |k1|
  {
    if |k1| > 0 {
      var i := DropFirstOccurrence(k1, k2);
      ExtraPassRemoveAt(e, path, k2, i);
      ExtraPassPermuted(e, path, k1[1..], k2[..i] + k2[i + 1..]);
      ExtraPassAppend(e, path, [k1[0]], k1[1..]);
      assert [k1[0]] + k1[1..] == k1;
    } else {
      assert |k2| == |multiset(k2)| == 0;
    }
  }
}
