/**
  What the records of `Differ.Compare` mean.

  - A mismatch record appears exactly when the two roots differ in name.
  - No records at all exactly when the trees are `Equivalent`: same root
    name, same set of child names, and the last child of each name
    equivalent on both sides; in particular a tree compared with itself.
  - For each child name only the expected side has, exactly one missing
    record; for each child name only the actual side has, exactly one
    extra record; none for names both sides have.

  What the records do not depend on (earlier same-named siblings, the key
  order of the maps) is stated, as counts of records, in `DifferInvariance`.
 */
module DifferProperties {
  import opened XmlTree
  import opened Grouping
  import opened Differ

  // ---------------------------------------------------------------------
  // Telling records apart
  // ---------------------------------------------------------------------

  /** Records of the three kinds start with different characters. */
  lemma TagsDiffer(line: string)
    ensures !(MismatchTag <= line && MissingTag <= line)
    ensures !(MismatchTag <= line && ExtraTag <= line)
    ensures !(MissingTag <= line && ExtraTag <= line)
  {
    if |line| > 0 {
      assert MismatchTag[0] == '节' && MissingTag[0] == '缺' && ExtraTag[0] == '多';
    }
  }

  lemma MissingLineIsMissing(path: string, name: string)
    ensures MissingTag <= MissingLine(path, name)
  {
    assert MissingLine(path, name) == MissingTag + (path + "/" + name);
  }

  lemma ExtraLineIsExtra(path: string, name: string)
    ensures ExtraTag <= ExtraLine(path, name)
  {
    assert ExtraLine(path, name) == ExtraTag + (path + "/" + name);
  }

  lemma MissingLineInjective(path: string, k: string, n: string)
    requires MissingLine(path, k) == MissingLine(path, n)
    ensures k == n
  {
    var w := |MissingTag + path + "/"|;
    assert k == MissingLine(path, k)[w..];
    assert n == MissingLine(path, n)[w..];
  }

  lemma ExtraLineInjective(path: string, k: string, n: string)
    requires ExtraLine(path, k) == ExtraLine(path, n)
    ensures k == n
  {
    var w := |ExtraTag + path + "/"|;
    assert k == ExtraLine(path, k)[w..];
    assert n == ExtraLine(path, n)[w..];
  }

  /**
    A record about something below the child `c` of the node at `path`
    never reads like a record about a child `n` of that node, as long as
    `n` contains no '/' (no XML tag name does).
   */
  lemma NotBelowSibling(line: string, path: string, c: string, n: string)
    requires Beneath(line, path + "/" + c)
    requires '/' !in n
    ensures line != MissingLine(path, n) && line != ExtraLine(path, n)
  {
    var q := path + "/" + c + "/";
    var body := ReportedPath(line);
    var at := |path| + 1 + |c|;
    assert q[at] == '/';
    assert at < |body| && body[at] == '/';
    var m := path + "/" + n;
    assert ReportedPath(MissingLine(path, n)) == m;
    assert ReportedPath(ExtraLine(path, n)) == m;
    assert |m| <= at || m[at] == n[|c|];
  }

  // ---------------------------------------------------------------------
  // Name mismatches
  // ---------------------------------------------------------------------

  /**
    A mismatch record appears iff the two roots differ in name, and then
    it is the only record. Recursive calls only ever compare same-named
    children, so no deeper mismatch record exists.
   */
  lemma MismatchOnlyAtRoot(e: XmlNode, a: XmlNode, p: string, ord: KeyOrder)
    ensures e.name != a.name ==> Compare(e, a, p, ord) == [MismatchLine(p, e.name, a.name)]
    ensures (exists line | line in Compare(e, a, p, ord) :: MismatchTag <= line) <==> e.name != a.name
  {
    var r := Compare(e, a, p, ord);
    if e.name != a.name {
      assert MismatchLine(p, e.name, a.name) == MismatchTag + (p + " 期望=" + e.name + " 实际=" + a.name);
      assert MismatchLine(p, e.name, a.name) in r;
    } else {
      forall line | line in r
        ensures !(MismatchTag <= line)
      {
        TagsDiffer(line);
      }
    }
  }

  // ---------------------------------------------------------------------
  // No records at all
  // ---------------------------------------------------------------------

  /**
    The trees the differ cannot tell apart: same root name, same set of
    child names (the keys of the children maps, see `GroupKeepsLastSibling`),
    and for each name the last child bearing it equivalent on both sides.
   */
  ghost predicate Equivalent(e: XmlNode, a: XmlNode)
    decreases e
  {
    && e.name == a.name
    && (forall n :: n in Group(e.children) <==> n in Group(a.children))
    && forall n | n in Group(e.children) && n in Group(a.children) ::
         Equivalent(Group(e.children)[n], Group(a.children)[n])
  }

  lemma {:induction false} EquivalentReflexive(t: XmlNode)
    ensures Equivalent(t, t)
    decreases t
  {
    forall n | n in Group(t.children)
      ensures Equivalent(Group(t.children)[n], Group(t.children)[n])
    {
      EquivalentReflexive(Group(t.children)[n]);
    }
  }

  /** `compare` appends nothing exactly when the trees are `Equivalent`. */
  lemma {:induction false} CompareEmptyIff(e: XmlNode, a: XmlNode, p: string, ord: KeyOrder)
    ensures Compare(e, a, p, ord) == [] <==> Equivalent(e, a)
    decreases e, 3, 0
  {
    if e.name == a.name {
      SameNameEmptyIff(e, a, p, ord);
    }
  }

  lemma {:induction false} SameNameEmptyIff(e: XmlNode, a: XmlNode, p: string, ord: KeyOrder)
    requires e.name == a.name
    ensures Compare(e, a, p, ord) == [] <==> Equivalent(e, a)
    decreases e, 2, 0
  {
    var path := p + "/" + e.name;
    var ek, ak := KeyIteration(e.children, ord), KeyIteration(a.children, ord);
    CompareSplits(e, a, p, ord);
    MissingPassEmptyIff(e, a, path, ek, ord);
    ExtraPassEmptyIff(e, path, ak);
    if Equivalent(e, a) {
      EquivalentGivesQuietPasses(e, a, ord);
    }
    if AllMatched(e, a, ek) && AllPresent(e, ak) {
      QuietPassesGiveEquivalent(e, a, ord);
    }
  }

  /** With equal names, `compare` appends nothing iff neither loop does. */
  lemma CompareSplits(e: XmlNode, a: XmlNode, p: string, ord: KeyOrder)
    requires e.name == a.name
    ensures var path := p + "/" + e.name;
            Compare(e, a, p, ord) == [] <==>
            && MissingPass(e, a, path, KeyIteration(e.children, ord), ord) == []
            && ExtraPass(e, path, KeyIteration(a.children, ord)) == []
  {
  }

  /** Every name of `keys` names, on both sides, children that are equivalent. */
  ghost predicate AllMatched(e: XmlNode, a: XmlNode, keys: seq<string>)
    requires forall k | k in keys :: k in Group(e.children)
  {
    forall k | k in keys :: k in Group(a.children) && Equivalent(Group(e.children)[k], Group(a.children)[k])
  }

  /** Every name of `keys` names a child of `e`. */
  ghost predicate AllPresent(e: XmlNode, keys: seq<string>) {
    forall k | k in keys :: k in Group(e.children)
  }

  /** Loops that find nothing to report mean equivalent trees. */
  lemma QuietPassesGiveEquivalent(e: XmlNode, a: XmlNode, ord: KeyOrder)
    requires e.name == a.name
    requires AllMatched(e, a, KeyIteration(e.children, ord))
    requires AllPresent(e, KeyIteration(a.children, ord))
    ensures Equivalent(e, a)
  {
    MapsAgree(e, a);
  }

  /** Equivalent trees leave both loops nothing to report. */
  lemma EquivalentGivesQuietPasses(e: XmlNode, a: XmlNode, ord: KeyOrder)
    requires Equivalent(e, a)
    ensures AllMatched(e, a, KeyIteration(e.children, ord))
    ensures AllPresent(e, KeyIteration(a.children, ord))
  {
    EquivalentMapsAgree(e, a);
  }

  /** Children maps that agree name by name make equivalent trees. */
  lemma MapsAgree(e: XmlNode, a: XmlNode)
    requires e.name == a.name
    requires var em, am := Group(e.children), Group(a.children);
             (forall k | k in em :: k in am && Equivalent(em[k], am[k])) && (forall k | k in am :: k in em)
    ensures Equivalent(e, a)
  {
  }

  /** Equivalent trees have children maps that agree name by name. */
  lemma EquivalentMapsAgree(e: XmlNode, a: XmlNode)
    requires Equivalent(e, a)
    ensures var em, am := Group(e.children), Group(a.children);
            (forall k | k in em :: k in am && Equivalent(em[k], am[k])) && (forall k | k in am :: k in em)
  {
  }

  lemma {:induction false} MissingPassEmptyIff(e: XmlNode, a: XmlNode, path: string, keys: seq<string>, ord: KeyOrder)
    requires forall k | k in keys :: k in Group(e.children)
    ensures MissingPass(e, a, path, keys, ord) == [] <==> AllMatched(e, a, keys)
    decreases e, 1, |keys|
  {
    if |keys| > 0 {
      var k := keys[0];
      var em, am := Group(e.children), Group(a.children);
      assert MissingPass(e, a, path, keys, ord)
          == MissingPiece(e, a, path, k, ord) + MissingPass(e, a, path, keys[1..], ord);
      MissingPassEmptyIff(e, a, path, keys[1..], ord);
      if k in am {
        CompareEmptyIff(em[k], am[k], path, ord);
      }
      assert forall k' | k' in keys :: k' == k || k' in keys[1..];
    }
  }

  lemma {:induction false} ExtraPassEmptyIff(e: XmlNode, path: string, keys: seq<string>)
    ensures ExtraPass(e, path, keys) == [] <==> AllPresent(e, keys)
    decreases |keys|
  {
    if |keys| > 0 {
      ExtraPassEmptyIff(e, path, keys[1..]);
      assert forall k' | k' in keys :: k' == keys[0] || k' in keys[1..];
    }
  }

  /** Comparing any tree with itself, under any path, appends no records. */
  lemma CompareSelfIsEmpty(t: XmlNode, p: string, ord: KeyOrder)
    ensures Compare(t, t, p, ord) == []
  {
    EquivalentReflexive(t);
    CompareEmptyIff(t, t, p, ord);
  }

  // ---------------------------------------------------------------------
  // Missing and extra records, counted
  // ---------------------------------------------------------------------

  /**
    One round of the first loop yields the missing record for `n` only
    when `n` is its key and the actual map lacks it, and never an extra
    record about a child of the node at `path`.
   */
  lemma PieceCounts(e: XmlNode, a: XmlNode, path: string, k: string, ord: KeyOrder, n: string)
    requires k in Group(e.children) && '/' !in n
    ensures multiset(MissingPiece(e, a, path, k, ord))[MissingLine(path, n)]
            == if k == n && k !in Group(a.children) then 1 else 0
    ensures multiset(MissingPiece(e, a, path, k, ord))[ExtraLine(path, n)] == 0
  {
    var em, am := Group(e.children), Group(a.children);
    var piece := MissingPiece(e, a, path, k, ord);
    if k in am {
      var sub := Compare(em[k], am[k], path, ord);
      assert piece == sub;
      assert forall line | line in sub :: Beneath(line, path + "/" + k);
      forall line | line in sub
        ensures line != MissingLine(path, n) && line != ExtraLine(path, n)
      {
        NotBelowSibling(line, path, k, n);
      }
      assert MissingLine(path, n) !in piece;
      assert ExtraLine(path, n) !in piece;
    } else {
      assert piece == [MissingLine(path, k)];
      if MissingLine(path, k) == MissingLine(path, n) {
        MissingLineInjective(path, k, n);
      }
      MissingLineIsMissing(path, k);
      ExtraLineIsExtra(path, n);
      TagsDiffer(ExtraLine(path, n));
    }
  }

  lemma {:induction false} MissingPassCountsMissing(e: XmlNode, a: XmlNode, path: string, keys: seq<string>,
                                                    ord: KeyOrder, n: string)
    requires forall k | k in keys :: k in Group(e.children)
    requires Distinct(keys) && '/' !in n
    ensures multiset(MissingPass(e, a, path, keys, ord))[MissingLine(path, n)]
            == if n in keys && n !in Group(a.children) then 1 else 0
    decreases |keys|
  {
    if |keys| > 0 {
      var k := keys[0];
      DistinctSplit(keys);
      MissingPassCountsMissing(e, a, path, keys[1..], ord, n);
      PieceCounts(e, a, path, k, ord, n);
      assert MissingPass(e, a, path, keys, ord)
          == MissingPiece(e, a, path, k, ord) + MissingPass(e, a, path, keys[1..], ord);
      assert n in keys <==> n == k || n in keys[1..];
    }
  }

  lemma ExtraPassCountsNoMissing(e: XmlNode, path: string, keys: seq<string>, n: string)
    ensures multiset(ExtraPass(e, path, keys))[MissingLine(path, n)] == 0
  {
    MissingLineIsMissing(path, n);
    TagsDiffer(MissingLine(path, n));
    assert MissingLine(path, n) !in ExtraPass(e, path, keys);
  }

  /**
    Exactly one missing record `"缺失: " + path + "/" + n` for a child name
    `n` that only the expected side has, however many children bear it;
    none otherwise. Here `path` is the prefix extended with the root name.
   */
  lemma MissingCount(e: XmlNode, a: XmlNode, p: string, ord: KeyOrder, n: string)
    requires e.name == a.name && '/' !in n
    ensures multiset(Compare(e, a, p, ord))[MissingLine(p + "/" + e.name, n)]
            == if n in NameSet(e.children) && n !in NameSet(a.children) then 1 else 0
  {
    var path := p + "/" + e.name;
    GroupKeepsLastSibling(e.children);
    GroupKeepsLastSibling(a.children);
    MissingPassCountsMissing(e, a, path, KeyIteration(e.children, ord), ord, n);
    ExtraPassCountsNoMissing(e, path, KeyIteration(a.children, ord), n);
  }

  lemma {:induction false} MissingPassCountsNoExtra(e: XmlNode, a: XmlNode, path: string, keys: seq<string>,
                                                    ord: KeyOrder, n: string)
    requires forall k | k in keys :: k in Group(e.children)
    requires '/' !in n
    ensures multiset(MissingPass(e, a, path, keys, ord))[ExtraLine(path, n)] == 0
    decreases |keys|
  {
    if |keys| > 0 {
      var k := keys[0];
      MissingPassCountsNoExtra(e, a, path, keys[1..], ord, n);
      PieceCounts(e, a, path, k, ord, n);
      assert MissingPass(e, a, path, keys, ord)
          == MissingPiece(e, a, path, k, ord) + MissingPass(e, a, path, keys[1..], ord);
    }
  }

  lemma {:induction false} ExtraPassCountsExtra(e: XmlNode, path: string, keys: seq<string>, n: string)
    requires Distinct(keys)
    ensures multiset(ExtraPass(e, path, keys))[ExtraLine(path, n)]
            == if n in keys && n !in Group(e.children) then 1 else 0
    decreases |keys|
  {
    if |keys| > 0 {
      var k := keys[0];
      DistinctSplit(keys);
      ExtraPassCountsExtra(e, path, keys[1..], n);
      if ExtraLine(path, k) == ExtraLine(path, n) {
        ExtraLineInjective(path, k, n);
      }
      assert n in keys <==> n == k || n in keys[1..];
    }
  }

  /**
    Exactly one extra record `"多余: " + path + "/" + n` for a child name
    `n` that only the actual side has; none for names both sides have.
   */
  lemma ExtraCount(e: XmlNode, a: XmlNode, p: string, ord: KeyOrder, n: string)
    requires e.name == a.name && '/' !in n
    ensures multiset(Compare(e, a, p, ord))[ExtraLine(p + "/" + e.name, n)]
            == if n in NameSet(a.children) && n !in NameSet(e.children) then 1 else 0
  {
    var path := p + "/" + e.name;
    GroupKeepsLastSibling(e.children);
    GroupKeepsLastSibling(a.children);
    MissingPassCountsNoExtra(e, a, path, KeyIteration(e.children, ord), ord, n);
    ExtraPassCountsExtra(e, path, KeyIteration(a.children, ord), n);
  }
}
