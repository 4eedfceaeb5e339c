/**
  The diff report (`XmlDiffChecker.main`): for each input file, a header
  line naming the file, then either the single line "无差异" (no
  differences) or the file's records one per line, then an empty line.

  The report is modelled as the sequence of strings passed to `println`;
  the line separator the writer appends to each is left to the platform.
  The parsing functions have no counterpart in `XmlDiffChecker`. They read
  such a sequence back into each file's name and records, which shows
  that the report loses nothing.
 */
module Report {
  import opened XmlTree
  import opened Grouping
  import opened Differ
  import opened DifferProperties
  import opened Seqs

  datatype Option<T> = None | Some(value: T)

  const HeaderPrefix: string := "=== 文件: "
  const HeaderSuffix: string := " ==="
  const NoDifferences: string := "无差异"

  /** The records of one input file, under the file's name. */
  datatype FileDiffs = FileDiffs(fileName: string, diffs: seq<string>)

  function Header(fileName: string): string {
    HeaderPrefix + fileName + HeaderSuffix
  }

  /** The lines printed for one file. */
  function Section(r: FileDiffs): (lines: seq<string>)
    ensures |lines| == 2 + (if |r.diffs| == 0 then 1 else |r.diffs|)
    ensures lines[0] == Header(r.fileName) && lines[|lines| - 1] == ""
    ensures lines[1..|lines| - 1] == (if |r.diffs| == 0 then [NoDifferences] else r.diffs)
  {
    [Header(r.fileName)] + (if |r.diffs| == 0 then [NoDifferences] else r.diffs) + [""]
  }

  /** The whole report: the sections of the files, in the order the files are visited. */
  function RenderReport(rs: seq<FileDiffs>): (lines: seq<string>)
    ensures |rs| == 0 <==> |lines| == 0
    decreases |rs|
  {
    if |rs| == 0 then [] else Section(rs[0]) + RenderReport(rs[1..])
  }

  /** Records the report can carry without ambiguity: none empty, and not just the "no differences" line. */
  predicate Readable(diffs: seq<string>) {
    && diffs != [NoDifferences]
    && forall d | d in diffs :: d != ""
  }

  /** The name in a header line, if the line is one. */
  function ParseHeader(line: string): (r: Option<string>)
    ensures r.Some? ==> Header(r.value) == line
  {
    if |line| >= |HeaderPrefix| + |HeaderSuffix|
       && line[..|HeaderPrefix|] == HeaderPrefix
       && line[|line| - |HeaderSuffix|..] == HeaderSuffix
    then
      var name := line[|HeaderPrefix|..|line| - |HeaderSuffix|];
      assert line == line[..|HeaderPrefix|] + name + line[|line| - |HeaderSuffix|..];
      Some(name)
    else None
  }

  /** Reads one section back: a header, at least one body line, and the closing empty line. */
  function ParseSection(lines: seq<string>): (r: Option<FileDiffs>)
    ensures r.Some? ==> Section(r.value) == lines
  {
    if |lines| < 3 || lines[|lines| - 1] != "" then None
    else
      match ParseHeader(lines[0])
      case None => None
      case Some(name) =>
        var body := lines[1..|lines| - 1];
        Some(FileDiffs(name, if body == [NoDifferences] then [] else body))
  }

  /** Index of the first empty line, or -1 when there is none. */
  function FirstEmpty(lines: seq<string>): (j: int)
    ensures -1 <= j < |lines|
    ensures j >= 0 ==> lines[j] == "" && forall k | 0 <= k < j :: lines[k] != ""
    ensures j < 0 ==> forall k | 0 <= k < |lines| :: lines[k] != ""
    decreases |lines|
  {
    if |lines| == 0 then -1
    else if lines[0] == "" then 0
    else
      var j := FirstEmpty(lines[1..]);
      if j < 0 then -1 else j + 1
  }

  /** Reads a whole report back into its sections, each ending at its first empty line. */
  function ParseReport(lines: seq<string>): (r: Option<seq<FileDiffs>>)
    decreases |lines|
  {
    if |lines| == 0 then Some([])
    else
      var j := FirstEmpty(lines);
      if j < 0 then None
      else
        match ParseSection(lines[..j + 1])
        case None => None
        case Some(s) =>
          match ParseReport(lines[j + 1..])
          case None => None
          case Some(rest) => Some([s] + rest)
  }

  lemma ParseSectionOfSection(r: FileDiffs)
    requires Readable(r.diffs)
    ensures ParseSection(Section(r)) == Some(r)
  {
    var lines := Section(r);
    var h := Header(r.fileName);
    assert h[..|HeaderPrefix|] == HeaderPrefix;
    assert h[|h| - |HeaderSuffix|..] == HeaderSuffix;
    assert h[|HeaderPrefix|..|h| - |HeaderSuffix|] == r.fileName;
  }

  /** A section's first empty line is its last line. */
  lemma SectionEnd(r: FileDiffs, rest: seq<string>)
    requires Readable(r.diffs)
    ensures FirstEmpty(Section(r) + rest) == |Section(r)| - 1
  {
    var lines := Section(r) + rest;
    var n := |Section(r)|;
    assert Header(r.fileName) != "" by {
      assert |Header(r.fileName)| >= |HeaderPrefix|;
    }
    forall k | 0 <= k < n - 1
      ensures lines[k] != ""
    {
      if k > 0 {
        assert lines[k] == Section(r)[1..n - 1][k - 1];
        assert lines[k] in Section(r)[1..n - 1];
      }
    }
    assert lines[n - 1] == "";
    FirstEmptyIs(lines, n - 1);
  }

  lemma {:induction false} FirstEmptyIs(lines: seq<string>, j: nat)
    requires j < |lines| && lines[j] == ""
    requires forall k | 0 <= k < j :: lines[k] != ""
    ensures FirstEmpty(lines) == j
    decreases |lines|
  {
    if j > 0 {
      FirstEmptyIs(lines[1..], j - 1);
    }
  }

  /** Reading back a report gives exactly the files and records it was printed from. */
  lemma {:induction false} ParseRenderReport(rs: seq<FileDiffs>)
    requires forall i | 0 <= i < |rs| :: Readable(rs[i].diffs)
    ensures ParseReport(RenderReport(rs)) == Some(rs)
    decreases |rs|
  {
    if |rs| > 0 {
      var sec, rest := Section(rs[0]), RenderReport(rs[1..]);
      SectionEnd(rs[0], rest);
      SliceAtSeam(sec, rest);
      ParseSectionOfSection(rs[0]);
      ParseRenderReport(rs[1..]);
      HeadTail(rs);
    }
  }

  /** Adding one more file's section at the end of the report. */
  lemma {:induction false} RenderReportSnoc(rs: seq<FileDiffs>, r: FileDiffs)
    ensures RenderReport(rs + [r]) == RenderReport(rs) + Section(r)
    decreases |rs|
  {
    if |rs| == 0 {
      assert rs + [r] == [r];
    } else {
      assert (rs + [r])[1..] == rs[1..] + [r];
      RenderReportSnoc(rs[1..], r);
      AppendAssociates(Section(rs[0]), RenderReport(rs[1..]), Section(r));
    }
  }

  // ---------------------------------------------------------------------
  // The differ's records in the report
  // ---------------------------------------------------------------------

  /** Every record the differ produces is non-empty and no record is the "no differences" line. */
  lemma CompareIsReadable(e: XmlNode, a: XmlNode, p: string, ord: KeyOrder)
    ensures Readable(Compare(e, a, p, ord))
  {
    var r := Compare(e, a, p, ord);
    forall d | d in r
      ensures d != "" && d != NoDifferences
    {
      if e.name != a.name {
        assert d == MismatchTag + (p + " 期望=" + e.name + " 实际=" + a.name);
        TaggedIsReadable(d);
      } else {
        assert Beneath(d, p + "/" + e.name);
        TaggedIsReadable(d);
      }
    }
    assert |r| > 0 ==> r[0] in r;
  }

  /** A line that starts with one of the three record tags is neither empty nor the "no differences" line. */
  lemma TaggedIsReadable(d: string)
    requires MismatchTag <= d || MissingTag <= d || ExtraTag <= d
    ensures d != "" && d != NoDifferences
  {
    assert |d| > 0 && (d[0] == MismatchTag[0] || d[0] == MissingTag[0] || d[0] == ExtraTag[0]);
    assert MismatchTag[0] == '节' && MissingTag[0] == '缺' && ExtraTag[0] == '多';
    assert NoDifferences[0] == '无';
  }

  /** The records for one input file: its tree compared with the expected tree, from the empty path. */
  function FileResult(expected: XmlNode, fileName: string, doc: Dom, ord: KeyOrder): (r: FileDiffs)
    requires doc.Element?
    ensures r.fileName == fileName && Readable(r.diffs)
    ensures r.diffs == [] <==> Equivalent(expected, BuildTree(doc))
  {
    var diffs := Compare(expected, BuildTree(doc), "", ord);
    CompareIsReadable(expected, BuildTree(doc), "", ord);
    CompareEmptyIff(expected, BuildTree(doc), "", ord);
    FileDiffs(fileName, diffs)
  }

  /** The files' results in visiting order. */
  function Results(expected: XmlNode, files: seq<(string, Dom)>, ord: KeyOrder): (rs: seq<FileDiffs>)
    requires forall i | 0 <= i < |files| :: files[i].1.Element?
    ensures |rs| == |files|
    ensures forall i | 0 <= i < |files| :: rs[i] == FileResult(expected, files[i].0, files[i].1, ord)
  {
    seq(|files|, i requires 0 <= i < |files| => FileResult(expected, files[i].0, files[i].1, ord))
  }

  /**
    The report for a list of parsed input files (name and document),
    against the parsed expected document.
   */
  function DiffReport(expected: Dom, files: seq<(string, Dom)>, ord: KeyOrder): (lines: seq<string>)
    requires expected.Element?
    requires forall i | 0 <= i < |files| :: files[i].1.Element?
  {
    RenderReport(Results(BuildTree(expected), files, ord))
  }

  /**
    The report can be read back, file by file, into exactly the records
    `compare` produced for each file.
   */
  lemma DiffReportIsReadable(expected: Dom, files: seq<(string, Dom)>, ord: KeyOrder)
    requires expected.Element?
    requires forall i | 0 <= i < |files| :: files[i].1.Element?
    ensures ParseReport(DiffReport(expected, files, ord)) == Some(Results(BuildTree(expected), files, ord))
  {
    ParseRenderReport(Results(BuildTree(expected), files, ord));
  }

  /** A file's section says "无差异" exactly when its tree is equivalent to the expected tree. */
  lemma NoDifferencesIff(expected: XmlNode, fileName: string, doc: Dom, ord: KeyOrder)
    requires doc.Element?
    ensures var lines := Section(FileResult(expected, fileName, doc, ord));
            lines[1] == NoDifferences <==> Equivalent(expected, BuildTree(doc))
  {
    var r := FileResult(expected, fileName, doc, ord);
    if r.diffs != [] {
      assert r.diffs[0] in r.diffs;
    }
  }

  /** A file whose document is the expected document gets the "no differences" section. */
  lemma IdenticalFileHasNoDifferences(expected: Dom, fileName: string, ord: KeyOrder)
    requires expected.Element?
    ensures Section(FileResult(BuildTree(expected), fileName, expected, ord))
            == [Header(fileName), NoDifferences, ""]
  {
    EquivalentReflexive(BuildTree(expected));
    var r := FileResult(BuildTree(expected), fileName, expected, ord);
    assert r == FileDiffs(fileName, []);
    EmptySection(fileName);
  }

  /** A file without records gets the header, the "no differences" line and the closing empty line. */
  lemma EmptySection(fileName: string)
    ensures Section(FileDiffs(fileName, [])) == [Header(fileName), NoDifferences, ""]
  {
    var lines := Section(FileDiffs(fileName, []));
    assert lines[1..2] == [NoDifferences];
  }

  /**
    The loop of `main` after the documents are parsed: for each file,
    collect its records with `compare` and print the section line by
    line.
   */
  method WriteReport(expected: Dom, files: seq<(string, Dom)>, ord: KeyOrder) returns (out: seq<string>)
    requires expected.Element?
    requires forall i | 0 <= i < |files| :: files[i].1.Element?
    ensures out == DiffReport(expected, files, ord)
  {
    var expectedTree := BuildTree(expected);
    out := [];
    var i := 0;
    while i < |files|
      invariant 0 <= i <= |files|
      invariant out == RenderReport(Results(expectedTree, files, ord)[..i])
    {
      var diffs := CompareInto(expectedTree, BuildTree(files[i].1), "", [], ord);
      ReportStep(expectedTree, files, ord, i, diffs);
      out := WriteSection(out, files[i].0, diffs);
      i := i + 1;
    }
    ReportDone(expectedTree, files, ord);
  }

  /** The report after one more file is the report so far followed by that file's section. */
  lemma ReportStep(expectedTree: XmlNode, files: seq<(string, Dom)>, ord: KeyOrder, i: nat, diffs: seq<string>)
    requires forall k | 0 <= k < |files| :: files[k].1.Element?
    requires i < |files|
    requires diffs == [] + Compare(expectedTree, BuildTree(files[i].1), "", ord)
    ensures RenderReport(Results(expectedTree, files, ord)[..i + 1])
            == RenderReport(Results(expectedTree, files, ord)[..i]) + Section(FileDiffs(files[i].0, diffs))
  {
    var rs := Results(expectedTree, files, ord);
    assert rs[i] == FileDiffs(files[i].0, diffs);
    TakeOneMore(rs, i);
    RenderReportSnoc(rs[..i], rs[i]);
  }

  lemma ReportDone(expectedTree: XmlNode, files: seq<(string, Dom)>, ord: KeyOrder)
    requires forall k | 0 <= k < |files| :: files[k].1.Element?
    ensures Results(expectedTree, files, ord)[..|files|] == Results(expectedTree, files, ord)
  {
  }

  /** Prints one file's header, records (or the "no differences" line) and the closing empty line. */
  method WriteSection(out0: seq<string>, fileName: string, diffs: seq<string>) returns (out: seq<string>)
    ensures out == out0 + Section(FileDiffs(fileName, diffs))
  {
    out := out0 + [Header(fileName)];
    if |diffs| == 0 {
      out := out + [NoDifferences];
    } else {
      out := PrintAll(out, diffs);
    }
    out := out + [""];
    assert out == out0 + ([Header(fileName)] + (if |diffs| == 0 then [NoDifferences] else diffs) + [""]);
  }

  /** Prints each record on its own line. */
  method PrintAll(out0: seq<string>, diffs: seq<string>) returns (out: seq<string>)
    ensures out == out0 + diffs
  {
    out := out0;
    var j := 0;
    while j < |diffs|
      invariant 0 <= j <= |diffs|
      invariant out == out0 + diffs[..j]
    {
      assert diffs[..j + 1] == diffs[..j] + [diffs[j]];
      out := out + [diffs[j]];
      j := j + 1;
    }
    assert diffs[..j] == diffs;
  }
}
