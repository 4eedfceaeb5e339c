# XmlDiffChecker in Dafny

This project models the structural XML differ `XmlDiffChecker` in
`src/com/atguigu/bean/Book.java`. The tool reads an expected document and a
directory of candidate documents. It writes one report section per candidate
that lists how the candidate's element structure differs from the expected one.

The model follows the three parts of that class:

- **Tree builder** (`XmlTree`). `buildTree` turns a parsed DOM element into a
  tree of tag names. Element children are kept in document order. Text,
  comments and processing instructions are dropped. `BuildTree` is the
  function. `ToDom` maps a tree back to a document, and `Strip` removes every
  non-element node from a document. The round trips through them are proved.
- **Differ** (`Grouping`, `Differ`, `DifferProperties`, `DifferInvariance`,
  `DifferScenarios`). `compare` puts each side's children into a
  `HashMap<String, XmlNode>`, so the last same-named sibling wins. It then
  appends three kinds of record to a list:
  - `节点不一致: …`, a name mismatch, after which it stops;
  - `缺失: …`, a missing child;
  - `多余: …`, an extra child.

  `Differ.Compare` is the pure form: the records one call appends. The method
  `Differ.CompareInto` follows the source loop by loop, and it is proved to
  append exactly `Compare`'s records. Java does not specify the order in
  which a `HashMap` visits its keys. For a map of string keys filled only by
  `put`, that order is decided by the distinct keys in the order they were
  first put, because putting a key that is already present moves nothing.
  The order is therefore a parameter `ord: KeyOrder`: an arbitrary function
  from that key list to a permutation of it. Every property below holds for
  every such function, so nothing rests on a particular order.
- **Report** (`Report`). For each file, `main` prints a header line, then
  either `无差异` or the records, then an empty line. The report is modelled
  as the sequence of strings passed to `println`, one per printed line.
  `ParseReport` reads such a sequence back into its files and records, and
  reading back a rendered report is proved to give back exactly what was
  rendered.

Modules:

- `Seqs`: sequence lemmas.
- `XmlTree`: the tree and the DOM.
- `Grouping`: the children map, its first-insertion key list and its key order.
- `Differ`: `compare` itself.
- `DifferProperties`: what the records mean.
- `DifferInvariance`: what the records do not depend on.
- `DifferScenarios`: small concrete documents.
- `Report`: the report.

## Model

| member | source | states |
|---|---|---|
| XmlTree.Elements | src/com/atguigu/bean/Book.java:29-32 | The builder keeps every element child and nothing else: each kept node is an element of the input, each element of the input is kept, and a list that holds only elements is kept whole. |
| XmlTree.ElementsAppend | src/com/atguigu/bean/Book.java:30-34 | The builder's loop keeps document order: the elements of two runs of nodes are the first run's elements followed by the second's. |
| XmlTree.BuildTree | src/com/atguigu/bean/Book.java:27-37 | The tree of an element has the element's tag name. It has one child per element child of the DOM node, in document order, and each child is the tree of that element, carrying its tag name. |
| XmlTree.BuildChildren | src/com/atguigu/bean/Book.java:30-35 | After the loop has looked at the first `k` child nodes, it has built one child per element among them, in document order, each the tree of that element and carrying its tag name. |
| XmlTree.BuildTreeOfToDom | src/com/atguigu/bean/Book.java:27-37 | Every tree of tag names is the builder's output for the document it stands for, so the builder loses no element structure. |
| XmlTree.ToDomOfBuildTree | src/com/atguigu/bean/Book.java:27-37 | The builder forgets exactly the non-element content, at every depth: the tree's document is the input with every non-element node removed. |
| Grouping.Group | src/com/atguigu/bean/Book.java:50-59 | Each name in the children map maps to a child that bears that name. |
| Grouping.GroupKeepsLastSibling | src/com/atguigu/bean/Book.java:51-53 | The map's keys are exactly the children's names. Each name maps to the last child that bears it, because `put` overwrites earlier same-named siblings. |
| Grouping.ShadowedSiblingIsInvisible | src/com/atguigu/bean/Book.java:51-53 | Removing a child that has a later sibling of the same name leaves the map unchanged. |
| Grouping.InsertionOrder | src/com/atguigu/bean/Book.java:51-53 | The keys the `put` loop adds are the children's names, each listed once. |
| Grouping.InsertionOrderOfPrefix | src/com/atguigu/bean/Book.java:51-53 | The keys are listed in the order they are first put: the keys put by the first children come first, and a later child never moves a key already put. |
| Grouping.Pick | src/com/atguigu/bean/Book.java:62 | Visiting the keys in the order a key order chooses visits each key exactly as often as it occurs. |
| Grouping.ChoicesFor | src/com/atguigu/bean/Book.java:62 | Every permutation of the keys is the visiting order under some key order, so no order the `HashMap` may use is excluded. |
| Grouping.KeyIteration | src/com/atguigu/bean/Book.java:62 | A walk over `keySet()` visits every key of the map exactly once and nothing else. |
| Grouping.KeyIterationsArePermutations | src/com/atguigu/bean/Book.java:62 | Two key orders visit the same keys, each once. |
| Differ.Compare | src/com/atguigu/bean/Book.java:40-76 | If the names differ, the one record is the mismatch record under the given path. Otherwise every record is a missing or extra record for a path strictly below `path + "/" + name`. |
| Differ.MissingPass | src/com/atguigu/bean/Book.java:62-68 | Every record of the first loop lies strictly below the node's path. |
| Differ.MissingPiece | src/com/atguigu/bean/Book.java:63-67 | Every record of one round of the first loop, a missing record or the records of the recursive comparison, lies strictly below the node's path. |
| Differ.ExtraPass | src/com/atguigu/bean/Book.java:71-75 | Every record of the second loop is an extra record strictly below the node's path. |
| Differ.CompareInto | src/com/atguigu/bean/Book.java:40-76 | `compare` only appends to the list it is given. The old contents stay a prefix, and what is appended is exactly `Compare`'s records. |
| Differ.PutAll | src/com/atguigu/bean/Book.java:50-59 | The map filled by the `put` loop is the children map `Group`. |
| Differ.MissingLoop | src/com/atguigu/bean/Book.java:62-68 | The loop over the expected keys appends, key by key, a missing record or the records of the recursive comparison. |
| Differ.ExtraLoop | src/com/atguigu/bean/Book.java:71-75 | The loop over the actual keys appends an extra record for each key the expected map lacks, and nothing else. |
| Differ.MissingLineBeneath | src/com/atguigu/bean/Book.java:64 | A missing record reports a path strictly below the node being compared: the node's path followed by `/`. |
| Differ.ExtraLineBeneath | src/com/atguigu/bean/Book.java:73 | An extra record reports a path strictly below the node being compared: the node's path followed by `/`. |
| DifferProperties.TagsDiffer | src/com/atguigu/bean/Book.java:43-73 | No record can be read as two different kinds: mismatch, missing and extra records start differently. |
| DifferProperties.MismatchOnlyAtRoot | src/com/atguigu/bean/Book.java:42-45 | A differing name gives exactly one mismatch record and no descent. A mismatch record appears in the output if and only if the two roots differ in name, because recursive calls only meet same-named children. |
| DifferProperties.CompareEmptyIff | src/com/atguigu/bean/Book.java:40-76 | `compare` appends nothing if and only if the trees are `Equivalent`: same root name, same set of child names, and the last child of each name equivalent on both sides, recursively. |
| DifferProperties.EquivalentReflexive | src/com/atguigu/bean/Book.java:40-76 | Every tree is equivalent to itself. |
| DifferProperties.CompareSelfIsEmpty | src/com/atguigu/bean/Book.java:40-76 | Comparing any tree with itself, under any path prefix, appends no records. |
| DifferProperties.MissingCount | src/com/atguigu/bean/Book.java:47-64 | When the two roots have the same name, for a child name only the expected side has, exactly one `缺失: path/name` record appears, however many children bear the name. For any other name, none appears. |
| DifferProperties.ExtraCount | src/com/atguigu/bean/Book.java:55-73 | When the two roots have the same name, for a child name only the actual side has, exactly one `多余: path/name` record appears. For a name both sides have, or only the expected side has, none appears. |
| DifferProperties.MissingLineInjective | src/com/atguigu/bean/Book.java:64 | Missing records for different names under one path differ. |
| DifferProperties.ExtraLineInjective | src/com/atguigu/bean/Book.java:73 | Extra records for different names under one path differ. |
| DifferInvariance.CompareSeesOnlyChildMaps | src/com/atguigu/bean/Book.java:50-75 | Two comparisons whose nodes have the same names and the same children maps append the same records, each as often. Only their order may differ, because the maps may have been filled in a different order. |
| DifferInvariance.DropShadowedExpected | src/com/atguigu/bean/Book.java:52 | Removing an expected child that a later same-named sibling shadows changes no record's count. It may reorder the records. |
| DifferInvariance.DropShadowedActual | src/com/atguigu/bean/Book.java:58 | Removing an actual child that a later same-named sibling shadows changes no record's count. It may reorder the records. |
| DifferInvariance.RepeatedChildGoesUnreported | src/com/atguigu/bean/Book.java:52-66 | A node with two identical children compared with a node holding one of them gives no record, so count differences among same-named siblings go unreported. |
| DifferInvariance.CompareOrderIndependent | src/com/atguigu/bean/Book.java:62-75 | The `HashMap` key order only reorders the records. Every record appears the same number of times under any two key orders. |
| DifferScenarios.MissingChildScenario | src/com/atguigu/bean/Book.java:62-64 | `<root><a/><b/></root>` against `<root><a/></root>` gives exactly `["缺失: /root/b"]`, whatever the key order. |
| DifferScenarios.ExtraChildScenario | src/com/atguigu/bean/Book.java:71-73 | `<root><a/></root>` against `<root><a/><c/></root>` gives exactly `["多余: /root/c"]`, whatever the key order. |
| DifferScenarios.RootMismatchScenario | src/com/atguigu/bean/Book.java:42-45 | Roots `root` and `other` give exactly `["节点不一致:  期望=root 实际=other"]`, and the children are not looked at. |
| DifferScenarios.MissingSecondChild | src/com/atguigu/bean/Book.java:47-75 | An expected node with children `a` and `b` of different names, against a same-named actual node with the one child `a`, gives exactly the missing record for `b`. |
| DifferScenarios.ExtraSecondChild | src/com/atguigu/bean/Book.java:47-75 | An expected node with the one child `a`, against a same-named actual node with children `a` and `c` of different names, gives exactly the extra record for `c`. |
| Report.Section | src/com/atguigu/bean/Book.java:90-98 | A file's section is the header line, then `无差异` when there are no records or else the records in list order, then one empty line. |
| Report.RenderReport | src/com/atguigu/bean/Book.java:85-98 | The report of no files has no lines, and the report of at least one file is never empty. |
| Report.RenderReportSnoc | src/com/atguigu/bean/Book.java:85-98 | Handling one more file appends that file's section to the report so far. |
| Report.PrintAll | src/com/atguigu/bean/Book.java:94-96 | The loop prints each record on its own line, in list order, after what was already printed. |
| Report.WriteSection | src/com/atguigu/bean/Book.java:90-98 | The printing statements write exactly the file's section after what was already written. |
| Report.ParseSectionOfSection | src/com/atguigu/bean/Book.java:90-98 | A section whose records are readable, that is none is empty and they are not the single line `无差异`, reads back into its file name and records. |
| Report.ParseRenderReport | src/com/atguigu/bean/Book.java:85-98 | Reading back a report gives exactly the files and records it was printed from, in order. |
| Report.CompareIsReadable | src/com/atguigu/bean/Book.java:43-73 | No record is empty or equal to `无差异`, so a section with records never reads like one without. |
| Report.FileResult | src/com/atguigu/bean/Book.java:86-88 | A file's records, compared from the empty path, are empty if and only if its tree is equivalent to the expected tree. |
| Report.NoDifferencesIff | src/com/atguigu/bean/Book.java:91-92 | A file's section says `无差异` if and only if the file's tree is equivalent to the expected tree. |
| Report.IdenticalFileHasNoDifferences | src/com/atguigu/bean/Book.java:86-98 | A file whose document is the expected document gets exactly the header, `无差异` and the empty line. |
| Report.DiffReportIsReadable | src/com/atguigu/bean/Book.java:85-98 | The whole report reads back, file by file, into exactly the records `compare` produced for each file. |
| Report.WriteReport | src/com/atguigu/bean/Book.java:85-98 | The per-file loop prints the sections of the files in the order they are visited. |

## Left out

- `parseXml` (Book.java:18-25) is not modelled: it is JAXP parsing and file I/O. Documents arrive as `Dom` values. A malformed file, which throws and ends the run in the source, is not represented.
- Listing the input directory, the `.xml` name filter and the `PrintWriter` (Book.java:79-84, 99-100) are not modelled: they are filesystem I/O. The files arrive as a sequence of (name, document) pairs in whatever order the listing gives. The report is the sequence of strings passed to `println`, and the platform line separator is not modelled.
- The `HashMap` key order (Book.java:62, 71) is not specified by Java and is not modelled as any particular order. It is the parameter `KeyOrder`, an arbitrary function of the keys in first-insertion order, and the properties hold for every such function. `DifferInvariance.CompareOrderIndependent` shows that the order only rearranges records. Properties that compare two differently filled maps are stated as counts of records, not as orders of records.
- `src/com/atguigu/bean/HelloTest.java` is not part of this model. It is a test of a class not among these sources, built from mocked database and messaging collaborators.
- DifferProperties.MissingCount: assumes the child name contains no `/`. XML tag names cannot, and without this a deeper record's text could coincide with a shallower one.
- DifferProperties.ExtraCount: assumes the child name contains no `/`, for the same reason.
- Stack depth is not modelled. `buildTree` (Book.java:33) and `compare` (Book.java:66) recurse once per level of nesting, so a deeply enough nested document makes Java throw `StackOverflowError`. The model's recursion has no such limit.
- `Report.ParseReport`, `Report.ParseSection` and `Report.ParseHeader` have no counterpart in the source. They exist only to state that the report loses nothing.
- Report.ParseRenderReport: reads back the strings passed to `println`, not the text of the report file. A file name containing a line break, which the `.xml` filter at Book.java:80 lets through, makes its header two lines of text in the file. Such a report cannot be split back into lines unambiguously.

The code does not do the following, and neither does the model:

- match same-named siblings by position: the last one wins in the map, and count differences go unreported;
- compare the children of two nodes whose names differ: a single mismatch record ends that comparison;
- sort the files by name before processing them;
- give a candidate that fails to parse its own error section.
