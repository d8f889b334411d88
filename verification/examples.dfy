/** Worked instances of the adapter's behaviour on concrete file names and rows. */
module Examples {
  import opened Results
  import opened Seqs
  import opened Text
  import opened Registry
  import opened Categories
  import opened Preprocessing
  import opened Adapter

  /** The example from the file table at the top of the adapter module. */
  lemma DownloadNameCode()
    ensures CategoryCode("ddinter_downloads_code_A.csv") == "A"
    ensures ClassOf(CategoryCode("ddinter_downloads_code_A.csv")) == Some("Alimentary tract and metabolism")
  {
    var name := "ddinter_downloads_code_A.csv";
    CategoryCodeDetermined(name, |name| - 5, |name| - 4);
    ClassOfA();
  }

  /** A download URL: the code is still the letter before the extension. */
  lemma DownloadUrlCode()
    ensures CategoryCode("http://ddinter.scbdd.com/static/media/download/ddinter_downloads_code_V.csv") == "V"
  {
    var url := "http://ddinter.scbdd.com/static/media/download/ddinter_downloads_code_V.csv";
    CategoryCodeDetermined(url, |url| - 5, |url| - 4);
  }

  /** An unknown code such as "Z" has no class. */
  lemma UnknownCodeHasNoClass()
    ensures ClassOf(CategoryCode("ddinter_downloads_code_Z.csv")) == None
  {
    var name := "ddinter_downloads_code_Z.csv";
    CategoryCodeDetermined(name, |name| - 5, |name| - 4);
    assert name[|name| - 5..|name| - 4] == "Z";
    ClassOfZ();
  }

  /** Without an underscore the whole name up to the first dot is the code, so a
      file called "A.csv" is read as category A. */
  lemma NoUnderscoreCode()
    ensures CategoryCode("A.csv") == "A"
  {
    CategoryCodeDetermined("A.csv", 0, 1);
  }

  const RowAspIbu := InteractionRow("1", "Asp", "2", "Ibu", "Major")
  const RowIbuPar := InteractionRow("2", "Ibu", "3", "Par", "Minor")
  const FileA := DataFile("ddinter_downloads_code_A.csv", [RowAspIbu])
  const FileB := DataFile("ddinter_downloads_code_B.csv", [RowIbuPar])

  const Scenario := [FileA, FileB]

  /** The second file's code. */
  lemma DownloadNameCodeB()
    ensures CategoryCode("ddinter_downloads_code_B.csv") == "B"
  {
    var name := "ddinter_downloads_code_B.csv";
    CategoryCodeDetermined(name, |name| - 5, |name| - 4);
    assert name[|name| - 5..|name| - 4] == "B";
  }

  /** Both file names carry known codes, so the adapter is constructed. */
  lemma ScenarioKnown()
    ensures Known(FileA) && Known(FileB)
    ensures AllKnown(Scenario)
  {
    DownloadNameCode();
    DownloadNameCodeB();
    ClassOfB();
  }

  /** The two rows in file order. */
  lemma ScenarioRows()
    ensures AllRows(Scenario) == [RowAspIbu, RowIbuPar]
    ensures TotalRows(Scenario[..1]) == 1
  {
    assert Scenario[..1] == [FileA];
    assert Scenario[..0] == [];
  }

  /** With the default selection, drug 2 is referenced by both files but is one
      node: the drug nodes are 1 Asp, 2 Ibu and 3 Par, in that order, three in all. */
  lemma ScenarioNodeCount(a: DDInterAdapter)
    requires New(Scenario, None, None, None, None) == Success(a)
    ensures a.tables.nodes == [NodeRow("1", "Asp"), NodeRow("2", "Ibu"), NodeRow("3", "Par")]
    ensures GetNodes(a) == [
      NodeRecord("1", "drug", map["name" := "Asp"]),
      NodeRecord("2", "drug", map["name" := "Ibu"]),
      NodeRecord("3", "drug", map["name" := "Par"])]
    ensures GetNodeCount(a) == 3
  {
    DefaultsListAll();
    assert DrugNodesActive(a.selection);
    ScenarioTable(a.tables);
    ScenarioRecords(a);
  }

  /** The three table rows, none with an apostrophe, become three drug tuples. */
  lemma ScenarioRecords(a: DDInterAdapter)
    requires DrugNodesActive(a.selection)
    requires a.tables.nodes == [NodeRow("1", "Asp"), NodeRow("2", "Ibu"), NodeRow("3", "Par")]
    ensures GetNodes(a) == [
      NodeRecord("1", "drug", map["name" := "Asp"]),
      NodeRecord("2", "drug", map["name" := "Ibu"]),
      NodeRecord("3", "drug", map["name" := "Par"])]
  {
    var nodes := GetNodes(a);
    forall i | 0 <= i < 3
      ensures nodes[i] == NodeRecord(a.tables.nodes[i].id, "drug", map["name" := a.tables.nodes[i].name])
    {
      RemoveAllAbsent(a.tables.nodes[i].name, Apostrophe);
    }
  }

  /** The deduplicated scenario table. */
  lemma ScenarioTable(t: Tables)
    requires Preprocess(Scenario) == Success(t)
    ensures t.nodes == [NodeRow("1", "Asp"), NodeRow("2", "Ibu"), NodeRow("3", "Par")]
  {
    var s := ScenarioConcatenated();
    ScenarioDedup();
  }

  /** Deduplication keeps the first "Ibu" and drops the second. */
  lemma ScenarioDedup()
    ensures Dedup([NodeRow("1", "Asp"), NodeRow("2", "Ibu"), NodeRow("2", "Ibu"), NodeRow("3", "Par")])
      == [NodeRow("1", "Asp"), NodeRow("2", "Ibu"), NodeRow("3", "Par")]
  {
    var s := [NodeRow("1", "Asp"), NodeRow("2", "Ibu"), NodeRow("2", "Ibu"), NodeRow("3", "Par")];
    var r := [NodeRow("1", "Asp"), NodeRow("2", "Ibu"), NodeRow("3", "Par")];
    FirstIndexUnique(s, r[0], 0);
    FirstIndexUnique(s, r[1], 1);
    FirstIndexUnique(s, r[2], 3);
    DedupUnique(s, r);
  }

  /** The node table before deduplication: each file's first participants,
      then its second ones. */
  lemma ScenarioConcatenated() returns (s: seq<NodeRow>)
    ensures AllKnown(Scenario)
    ensures s == Concatenate(Scenario).value.nodes
    ensures s == [NodeRow("1", "Asp"), NodeRow("2", "Ibu"), NodeRow("2", "Ibu"), NodeRow("3", "Par")]
  {
    ScenarioKnown();
    ScenarioRows();
    s := Concatenate(Scenario).value.nodes;
    NodesOfRow(Scenario, Lookups(Scenario), 0, 0);
    NodesOfRow(Scenario, Lookups(Scenario), 1, 0);
  }

  /** The three (id, name) pairs the two rows mention. */
  lemma ScenarioParticipants()
    ensures Participants([RowAspIbu, RowIbuPar]) == {NodeRow("1", "Asp"), NodeRow("2", "Ibu"), NodeRow("3", "Par")}
    ensures |Participants([RowAspIbu, RowIbuPar])| == 3
  {
    var rows := [RowAspIbu, RowIbuPar];
    assert forall r :: r in rows <==> r == RowAspIbu || r == RowIbuPar;
    assert SideA(RowAspIbu) == NodeRow("1", "Asp") && SideA(RowIbuPar) == NodeRow("2", "Ibu");
    assert SideB(RowAspIbu) == NodeRow("2", "Ibu") && SideB(RowIbuPar) == NodeRow("3", "Par");
    assert (set r | r in rows :: SideA(r)) == {NodeRow("1", "Asp"), NodeRow("2", "Ibu")};
    assert (set r | r in rows :: SideB(r)) == {NodeRow("2", "Ibu"), NodeRow("3", "Par")};
  }

  /** One edge per row, each tagged with the class of its own file. */
  lemma ScenarioEdges(a: DDInterAdapter, digest: EdgeRow -> string)
    requires New(Scenario, None, None, None, None) == Success(a)
    ensures |GetEdges(a, digest)| == 2
    ensures GetEdges(a, digest)[0].properties["class"] == "Alimentary tract and metabolism"
    ensures GetEdges(a, digest)[1].properties["class"] == "Blood and blood forming organs"
  {
    ScenarioRows();
    ScenarioEdgeClass(a, digest, 0, "A");
    ScenarioEdgeClass(a, digest, 1, "B");
    ClassOfA();
    ClassOfB();
  }

  /** The edge of file `k`'s single row carries the class of that file's code. */
  lemma ScenarioEdgeClass(a: DDInterAdapter, digest: EdgeRow -> string, k: int, code: string)
    requires New(Scenario, None, None, None, None) == Success(a)
    requires 0 <= k < 2 && code == ["AB"[k]]
    ensures |GetEdges(a, digest)| == 2
    ensures code in ClassNames && GetEdges(a, digest)[k].properties["class"] == ClassNames[code]
  {
    ScenarioRows();
    ScenarioKnown();
    assert CategoryCode(Scenario[k].path) == code by {
      DownloadNameCode();
      DownloadNameCodeB();
    }
    EdgeRecordOfRow(Scenario, a, digest, k, 0);
    assert TotalRows(Scenario[..k]) == k by {
      assert Scenario[..0] == [];
    }
  }

  /** The default selection over the two files constructs an adapter. */
  lemma ScenarioConstructs()
    ensures New(Scenario, None, None, None, None).Success?
  {
    ScenarioKnown();
  }

  /** A `_Z` file holding only its header line. */
  const FileZ := DataFile("ddinter_downloads_code_Z.csv", [])

  /** A file with an unknown code makes construction fail with that file's path
      and code, even after a good file and even when it has no rows. */
  lemma UnknownFileFails()
    ensures New([FileA, FileZ], None, None, None, None) == Failure(UnknownCategory(FileZ.path, "Z"))
  {
    var files := [FileA, FileZ];
    ScenarioKnown();
    FileZUnknown();
    var r := New(files, None, None, None, None);
    var k :| FirstUnknown(files, k) && r.error == UnknownCategoryOf(files[k]);
    assert k == 1;
  }

  /** The code of the unknown file. */
  lemma FileZUnknown()
    ensures CategoryCode(FileZ.path) == "Z" && !Known(FileZ)
  {
    UnknownCodeHasNoClass();
    CategoryCodeDetermined(FileZ.path, |FileZ.path| - 5, |FileZ.path| - 4);
    assert FileZ.path[|FileZ.path| - 5..|FileZ.path| - 4] == "Z";
  }

  const RowAspirin := InteractionRow("1", "Aspirin", "2", "Ibu", "Major")

  /** A single file, of whatever category, holding both spellings. */
  function Conflicting(path: string): seq<DataFile>
  {
    [DataFile(path, [RowAspIbu, RowAspirin])]
  }

  /** Deduplication is by (id, name) pair: an identifier spelled with two names
      yields two drug nodes with the same identifier. */
  lemma ConflictingNamesGiveTwoNodes(path: string, a: DDInterAdapter)
    requires New(Conflicting(path), None, None, None, None) == Success(a)
    ensures exists i, j :: 0 <= i < j < |GetNodes(a)| && GetNodes(a)[i].id == GetNodes(a)[j].id == "1"
  {
    DefaultsListAll();
    assert DrugNodesActive(a.selection);
    var nodes := GetNodes(a);
    var asp := NodeRecordOf(SideA(RowAspIbu));
    var aspirin := NodeRecordOf(SideA(RowAspirin));
    ConflictingRecords(path, a);
    var i := FirstIndex(nodes, asp);
    var j := FirstIndex(nodes, aspirin);
    if i < j {
      assert 0 <= i < j < |nodes| && nodes[i].id == nodes[j].id == "1";
    } else {
      assert 0 <= j < i < |nodes| && nodes[j].id == nodes[i].id == "1";
    }
  }

  /** Both spellings of drug 1 are emitted, as different records. */
  lemma ConflictingRecords(path: string, a: DDInterAdapter)
    requires New(Conflicting(path), None, None, None, None) == Success(a)
    requires DrugNodesActive(a.selection)
    ensures NodeRecordOf(SideA(RowAspIbu)) in GetNodes(a) && NodeRecordOf(SideA(RowAspirin)) in GetNodes(a)
    ensures NodeRecordOf(SideA(RowAspIbu)) != NodeRecordOf(SideA(RowAspirin))
  {
    assert AllRows(Conflicting(path)) == [RowAspIbu, RowAspirin] by {
      assert Conflicting(path)[..0] == [];
    }
    NodesCoverParticipants(Conflicting(path), a);
    DistinctSpellings();
  }

  /** Stripping apostrophes leaves the two spellings different. */
  lemma DistinctSpellings()
    ensures RemoveAll("Asp", Apostrophe) == "Asp" && RemoveAll("Aspirin", Apostrophe) == "Aspirin"
  {
    RemoveAllAbsent("Asp", Apostrophe);
    RemoveAllAbsent("Aspirin", Apostrophe);
  }

  const RowApostrophe := InteractionRow("1", "D'", "1", "D", "Major")

  /** A single file, of whatever category, whose one row names drug 1 with and
      without an apostrophe. */
  function ApostropheFile(path: string): seq<DataFile>
  {
    [DataFile(path, [RowApostrophe])]
  }

  /** Deduplication runs before apostrophes are stripped, so two table rows that
      differ only by an apostrophe are emitted as the same node tuple twice. */
  lemma ApostropheVariantsGiveSameNode(path: string, a: DDInterAdapter)
    requires New(ApostropheFile(path), None, None, None, None) == Success(a)
    ensures |GetNodes(a)| == 2
    ensures GetNodes(a)[0] == GetNodes(a)[1] == NodeRecord("1", "drug", map["name" := "D"])
  {
    ApostropheTable(path, a);
    StrippedSpellings();
    var nodes := GetNodes(a);
    forall i | 0 <= i < |nodes|
      ensures nodes[i] == NodeRecord("1", "drug", map["name" := "D"])
    {
      assert nodes[i] == NodeRecordOf(a.tables.nodes[i]);
    }
  }

  /** The node table holds both spellings, and only them. */
  lemma ApostropheTable(path: string, a: DDInterAdapter)
    requires New(ApostropheFile(path), None, None, None, None) == Success(a)
    ensures DrugNodesActive(a.selection) && |a.tables.nodes| == 2
    ensures forall i :: 0 <= i < |a.tables.nodes| ==>
      a.tables.nodes[i] == NodeRow("1", "D'") || a.tables.nodes[i] == NodeRow("1", "D")
  {
    DefaultsListAll();
    assert DrugNodesActive(a.selection);
    ApostropheRows(path);
    NodeCountIsDistinctPairs(ApostropheFile(path), a);
    ApostropheParticipants();
    ApostropheTableRows(path, a);
  }

  /** Every node-table row is one of the two spellings. */
  lemma ApostropheTableRows(path: string, a: DDInterAdapter)
    requires Preprocess(ApostropheFile(path)) == Success(a.tables)
    ensures forall i :: 0 <= i < |a.tables.nodes| ==>
      a.tables.nodes[i] == NodeRow("1", "D'") || a.tables.nodes[i] == NodeRow("1", "D")
  {
    ApostropheRows(path);
    forall i | 0 <= i < |a.tables.nodes|
      ensures a.tables.nodes[i] == NodeRow("1", "D'") || a.tables.nodes[i] == NodeRow("1", "D")
    {
      assert a.tables.nodes[i] in a.tables.nodes;
      assert MentionedIn(a.tables.nodes[i], [RowApostrophe]);
    }
  }

  /** The file's rows. */
  lemma ApostropheRows(path: string)
    ensures AllRows(ApostropheFile(path)) == [RowApostrophe]
  {
    assert ApostropheFile(path)[..0] == [];
  }

  /** The row mentions two different (id, name) pairs. */
  lemma ApostropheParticipants()
    ensures Participants([RowApostrophe]) == {NodeRow("1", "D'"), NodeRow("1", "D")}
    ensures |Participants([RowApostrophe])| == 2
  {
    var rows := [RowApostrophe];
    assert forall r :: r in rows <==> r == RowApostrophe;
    assert SideA(RowApostrophe) == NodeRow("1", "D'") && SideB(RowApostrophe) == NodeRow("1", "D");
    assert (set r | r in rows :: SideA(r)) == {NodeRow("1", "D'")};
    assert (set r | r in rows :: SideB(r)) == {NodeRow("1", "D")};
    assert |"D'"| != |"D"|;
  }

  /** Both spellings strip to "D". */
  lemma StrippedSpellings()
    ensures RemoveAll("D'", Apostrophe) == "D" && RemoveAll("D", Apostrophe) == "D"
  {
    assert "D'" == "D" + [Apostrophe];
    RemoveAllConcat("D", [Apostrophe], Apostrophe);
    RemoveAllSingle('D', Apostrophe);
    RemoveAllSingle(Apostrophe, Apostrophe);
  }
}
