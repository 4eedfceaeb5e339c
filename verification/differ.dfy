/**
  The structural differ (`XmlDiffChecker.compare`): walks an expected and
  an actual tree together and produces the text records the Java method
  appends to its `diffs` list.

  `Compare` is the pure form (the records one call appends); `CompareInto`
  is the accumulator form the Java method uses, proved to append exactly
  `Compare`'s records to whatever the list already held.
 */
module Differ {
  import opened XmlTree
  import opened Grouping
  import opened Seqs

  const MismatchTag: string := "节点不一致: "
  const MissingTag: string := "缺失: "
  const ExtraTag: string := "多余: "

  /** Record for two nodes compared under `path` whose names differ. */
  function MismatchLine(path: string, expectedName: string, actualName: string): string {
    MismatchTag + path + " 期望=" + expectedName + " 实际=" + actualName
  }

  /** Record for a child name under `path` that only the expected side has. */
  function MissingLine(path: string, name: string): string {
    MissingTag + path + "/" + name
  }

  /** Record for a child name under `path` that only the actual side has. */
  function ExtraLine(path: string, name: string): string {
    ExtraTag + path + "/" + name
  }

  /** The text after a missing or extra record's tag: the path it reports. */
  function ReportedPath(line: string): string
    requires |MissingTag| <= |line|
  {
    line[|MissingTag|..]
  }

  /** `line` is a missing or extra record about something strictly below the node at `path`. */
  predicate Beneath(line: string, path: string) {
    && |MissingTag| <= |line|
    && (MissingTag <= line || ExtraTag <= line)
    && path + "/" <= ReportedPath(line)
  }

  lemma MissingLineBeneath(path: string, name: string)
    ensures Beneath(MissingLine(path, name), path)
  {
    assert ReportedPath(MissingLine(path, name)) == path + "/" + name;
  }

  lemma ExtraLineBeneath(path: string, name: string)
    ensures Beneath(ExtraLine(path, name), path)
  {
    assert ReportedPath(ExtraLine(path, name)) == path + "/" + name;
  }

  /** Below a child of the node at `path` is below that node too. */
  lemma BeneathParent(line: string, path: string, name: string)
    requires Beneath(line, path + "/" + name)
    ensures Beneath(line, path)
  {
    var body := ReportedPath(line);
    var q := path + "/" + name + "/";
    assert q[..|path| + 1] == path + "/";
    assert body[..|q|][..|path| + 1] == body[..|path| + 1];
  }

  /**
    The records one call `compare(e, a, p, diffs)` appends to `diffs`.

    Names that differ give a single mismatch record and nothing else;
    otherwise every record reports a path strictly below the node, so a
    mismatch record can only come from the outermost call.
   */
  function Compare(e: XmlNode, a: XmlNode, p: string, ord: KeyOrder): (r: seq<string>)
    ensures e.name != a.name ==> r == [MismatchLine(p, e.name, a.name)]
    ensures e.name == a.name ==> forall line | line in r :: Beneath(line, p + "/" + e.name)
    decreases e, 2, 0
  {
    if e.name != a.name then [MismatchLine(p, e.name, a.name)]
    else
      var path := p + "/" + e.name;
      MissingPass(e, a, path, KeyIteration(e.children, ord), ord)
        + ExtraPass(e, path, KeyIteration(a.children, ord))
  }

  /**
    The first loop of `compare`, over the expected map's `keys`: for each
    key in turn, the records of `MissingPiece`.
   */
  function MissingPass(e: XmlNode, a: XmlNode, path: string, keys: seq<string>, ord: KeyOrder): (r: seq<string>)
    requires forall k | k in keys :: k in Group(e.children)
    ensures forall line | line in r :: Beneath(line, path)
    decreases e, 1, |keys|
  {
    if |keys| == 0 then []
    else MissingPiece(e, a, path, keys[0], ord) + MissingPass(e, a, path, keys[1..], ord)
  }

  /**
    One round of the first loop: a missing record when the actual map
    lacks `k`, otherwise the records of comparing the two children `k`
    maps to.
   */
  function MissingPiece(e: XmlNode, a: XmlNode, path: string, k: string, ord: KeyOrder): (r: seq<string>)
    requires k in Group(e.children)
    ensures forall line | line in r :: Beneath(line, path)
    decreases e, 0, 0
  {
    var em, am := Group(e.children), Group(a.children);
    if k in am then
      var sub := Compare(em[k], am[k], path, ord);
      assert forall line | line in sub :: Beneath(line, path) by {
        forall line | line in sub
          ensures Beneath(line, path)
        {
          BeneathParent(line, path, k);
        }
      }
      sub
    else
      MissingLineBeneath(path, k);
      [MissingLine(path, k)]
  }

  /** The second loop of `compare`, over the actual map's `keys`: an extra record for each key the expected map lacks. */
  function ExtraPass(e: XmlNode, path: string, keys: seq<string>): (r: seq<string>)
    ensures forall line | line in r :: Beneath(line, path) && ExtraTag <= line
    decreases |keys|
  {
    if |keys| == 0 then []
    else
      var k := keys[0];
      ExtraLineBeneath(path, k);
      (if k in Group(e.children) then [] else [ExtraLine(path, k)])
        + ExtraPass(e, path, keys[1..])
  }

  /**
    `compare` as the Java method is written: fills the two maps child by
    child, then runs its two loops, adding records to the list `diffs`
    it was handed. The list's old contents stay a prefix, and what is
    appended is exactly `Compare`'s records.
   */
  method CompareInto(e: XmlNode, a: XmlNode, path: string, diffs: seq<string>, ord: KeyOrder)
    returns (out: seq<string>)
    ensures out == diffs + Compare(e, a, path, ord)
    decreases e, 1
  {
    if e.name != a.name {
      out := diffs + [MismatchLine(path, e.name, a.name)];
      assert out == diffs + Compare(e, a, path, ord);
      return;
    }
    var p := path + "/" + e.name;
    var expectedMap := PutAll(e.children);
    var actualMap := PutAll(a.children);
    var expectedKeys := KeyIteration(e.children, ord);
    var actualKeys := KeyIteration(a.children, ord);
    assert Compare(e, a, path, ord)
        == MissingPass(e, a, p, expectedKeys, ord) + ExtraPass(e, p, actualKeys);
    out := MissingLoop(e, a, p, expectedMap, actualMap, expectedKeys, diffs, ord);
    out := ExtraLoop(e, p, expectedMap, actualKeys, out);
    AppendAssociates(diffs, MissingPass(e, a, p, expectedKeys, ord), ExtraPass(e, p, actualKeys));
  }

  /** Fills a fresh map with `put(child.name, child)` for each child in order. */
  method PutAll(cs: seq<XmlNode>) returns (m: map<string, XmlNode>)
    ensures m == Group(cs)
  {
    m := map[];
    var i := 0;
    while i < |cs|
      invariant 0 <= i <= |cs|
      invariant m == Group(cs[..i])
    {
      var child := cs[i];
      GroupStep(cs, i);
      m := m[child.name := child];
      i := i + 1;
    }
    assert cs[..i] == cs;
  }

  /** The loop over the expected map's keys, appending to `diffs`. */
  method MissingLoop(e: XmlNode, a: XmlNode, p: string,
                     expectedMap: map<string, XmlNode>, actualMap: map<string, XmlNode>,
                     keys: seq<string>, diffs: seq<string>, ord: KeyOrder)
    returns (out: seq<string>)
    requires expectedMap == Group(e.children) && actualMap == Group(a.children)
    requires forall k | k in keys :: k in expectedMap
    ensures out == diffs + MissingPass(e, a, p, keys, ord)
    decreases e, 0
  {
    out := diffs;
    var j := 0;
    while j < |keys|
      invariant 0 <= j <= |keys|
      invariant out + MissingPass(e, a, p, keys[j..], ord) == diffs + MissingPass(e, a, p, keys, ord)
    {
      var name := keys[j];
      assert keys[j..][1..] == keys[j + 1..];
      assert MissingPass(e, a, p, keys[j..], ord)
          == MissingPiece(e, a, p, name, ord) + MissingPass(e, a, p, keys[j + 1..], ord);
      ghost var before := out;
      if name !in actualMap {
        out := out + [MissingLine(p, name)];
      } else {
        out := CompareInto(expectedMap[name], actualMap[name], p, out, ord);
      }
      assert out == before + MissingPiece(e, a, p, name, ord);
      AppendAssociates(before, MissingPiece(e, a, p, name, ord), MissingPass(e, a, p, keys[j + 1..], ord));
      j := j + 1;
    }
  }

  /** The loop over the actual map's keys, appending to `diffs`. */
  method ExtraLoop(e: XmlNode, p: string, expectedMap: map<string, XmlNode>,
                   keys: seq<string>, diffs: seq<string>)
    returns (out: seq<string>)
    requires expectedMap == Group(e.children)
    ensures out == diffs + ExtraPass(e, p, keys)
  {
    out := diffs;
    var j := 0;
    while j < |keys|
      invariant 0 <= j <= |keys|
      invariant out + ExtraPass(e, p, keys[j..]) == diffs + ExtraPass(e, p, keys)
    {
      var name := keys[j];
      assert keys[j..][1..] == keys[j + 1..];
      assert ExtraPass(e, p, keys[j..])
          == (if name in expectedMap then [] else [ExtraLine(p, name)]) + ExtraPass(e, p, keys[j + 1..]);
      if name !in expectedMap {
        out := out + [ExtraLine(p, name)];
      }
      j := j + 1;
    }
  }
}
