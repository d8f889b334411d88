/** Construction-time preprocessing of the interaction tables
    (`DDInterAdapter._preprocess`): every data file is reshaped into node rows and
    edge rows, the per-file tables are concatenated in file order, and the node
    table is deduplicated at the end. Reading a file is outside the model: a file
    is its path together with its already-parsed rows. */
module Preprocessing {
  import opened Results
  import opened Seqs
  import opened Categories

  /** One line of a category file: the columns DDInterID_A, Drug_A, DDInterID_B,
      Drug_B and Level. */
  datatype InteractionRow = InteractionRow(idA: string, drugA: string, idB: string, drugB: string, level: string)

  /** A category file: its path and its rows in file order. */
  datatype DataFile = DataFile(path: string, rows: seq<InteractionRow>)

  /** A row of the node table: the columns DDInterID and Drug. */
  datatype NodeRow = NodeRow(id: string, name: string)

  /** A row of the edge table: the columns DDInterID_A, DDInterID_B, Level and
      Class, together with the row's index label, which is its position in the
      file it came from (the concatenation keeps each file's own index). */
  datatype EdgeRow = EdgeRow(position: nat, idA: string, idB: string, level: string, interactionClass: string)

  /** The two tables the adapter holds once constructed. */
  datatype Tables = Tables(nodes: seq<NodeRow>, edges: seq<EdgeRow>)

  /** The only failure modelled: a file whose category code is not in the table
      (the dictionary lookup raises a KeyError). The KeyError carries only the
      code; the path is kept here to record at which file the loop stopped. */
  datatype PreprocessError = UnknownCategory(path: string, code: string)

  /** The category code read from a file's name and the class it maps to, if any. */
  datatype Lookup = Lookup(code: string, className: Option<string>)

  /** The node row for the first participant of an interaction. */
  function SideA(r: InteractionRow): NodeRow
  {
    NodeRow(r.idA, r.drugA)
  }

  /** The node row for the second participant of an interaction. */
  function SideB(r: InteractionRow): NodeRow
  {
    NodeRow(r.idB, r.drugB)
  }

  /** `n` is one of the two participants of some row of `rows`. */
  ghost predicate MentionedIn(n: NodeRow, rows: seq<InteractionRow>)
  {
    exists r :: r in rows && (n == SideA(r) || n == SideB(r))
  }

  /** An edge row records the endpoints and level of an interaction row. */
  predicate EdgeOf(e: EdgeRow, r: InteractionRow)
  {
    e.idA == r.idA && e.idB == r.idB && e.level == r.level
  }

  /** Lines 99-109: the code of a file's name and its entry in the class table. */
  function FileLookup(f: DataFile): Lookup
  {
    var code := CategoryCode(f.path);
    Lookup(code, ClassOf(code))
  }

  /** Whether the category code of a file's name is in the table. */
  predicate Known(f: DataFile)
  {
    FileLookup(f).className.Some?
  }

  /** The class name of a file whose code is known. */
  function ClassOfFile(f: DataFile): (name: string)
    requires Known(f)
    ensures name in ClassNames.Values
  {
    FileLookup(f).className.value
  }

  predicate AllKnown(files: seq<DataFile>)
  {
    forall k :: 0 <= k < |files| ==> Known(files[k])
  }

  /** `k` is the first file whose code is unknown. */
  predicate FirstUnknown(files: seq<DataFile>, k: int)
  {
    0 <= k < |files| && !Known(files[k]) && forall m :: 0 <= m < k ==> Known(files[m])
  }

  /** The error raised for a file whose code is unknown. */
  function UnknownCategoryOf(f: DataFile): PreprocessError
  {
    UnknownCategory(f.path, CategoryCode(f.path))
  }

  /** The lookups of all files, in file order. */
  function Lookups(files: seq<DataFile>): (lookups: seq<Lookup>)
    ensures |lookups| == |files|
    ensures forall k :: 0 <= k < |files| ==> lookups[k] == FileLookup(files[k])
  {
    seq(|files|, k requires 0 <= k < |files| => FileLookup(files[k]))
  }

  predicate AllFound(lookups: seq<Lookup>)
  {
    forall k :: 0 <= k < |lookups| ==> lookups[k].className.Some?
  }

  /** `k` is the first lookup that found no class. */
  predicate FirstMissing(lookups: seq<Lookup>, k: int)
  {
    0 <= k < |lookups| && lookups[k].className.None? && forall m :: 0 <= m < k ==> lookups[m].className.Some?
  }

  /** The position of the first lookup that found no class. */
  function FirstMissingIndex(lookups: seq<Lookup>): (k: nat)
    requires !AllFound(lookups)
    ensures FirstMissing(lookups, k)
  {
    if lookups[0].className.None? then 0
    else
      var k := FirstMissingIndex(lookups[1..]);
      assert forall m :: 1 <= m <= k ==> lookups[m] == lookups[1..][m - 1];
      k + 1
  }

  /** There is only one first missing lookup. */
  lemma FirstMissingIndexUnique(lookups: seq<Lookup>, k: int)
    requires FirstMissing(lookups, k)
    ensures FirstMissingIndex(lookups) == k
  {
  }

  /** Adding a lookup at the end does not move the first missing one. */
  lemma FirstMissingIndexPrefix(lookups: seq<Lookup>)
    requires |lookups| > 0
    ensures var earlier := lookups[..|lookups| - 1];
      !AllFound(earlier) ==> !AllFound(lookups) && FirstMissingIndex(lookups) == FirstMissingIndex(earlier)
  {
    var earlier := lookups[..|lookups| - 1];
    if !AllFound(earlier) {
      var k := FirstMissingIndex(earlier);
      assert FirstMissing(lookups, k);
      FirstMissingIndexUnique(lookups, k);
    }
  }

  /** The number of rows over all files. */
  function TotalRows(files: seq<DataFile>): nat
  {
    if |files| == 0 then 0 else TotalRows(files[..|files| - 1]) + |files[|files| - 1].rows|
  }

  /** The rows of all files, concatenated in file order. */
  function AllRows(files: seq<DataFile>): (rows: seq<InteractionRow>)
    ensures |rows| == TotalRows(files)
    decreases |files|
  {
    if |files| == 0 then [] else AllRows(files[..|files| - 1]) + files[|files| - 1].rows
  }

  /** Lines 113-119: the first-participant columns renamed to DDInterID and Drug,
      stacked on top of the second-participant columns renamed the same way. */
  function FileNodes(rows: seq<InteractionRow>): (nodes: seq<NodeRow>)
    ensures |nodes| == 2 * |rows|
    ensures forall i :: 0 <= i < |rows| ==> nodes[i] == SideA(rows[i]) && nodes[|rows| + i] == SideB(rows[i])
  {
    seq(|rows|, i requires 0 <= i < |rows| => SideA(rows[i])) + seq(|rows|, i requires 0 <= i < |rows| => SideB(rows[i]))
  }

  /** The node rows of a file are exactly the participants of its rows. */
  lemma FileNodesMentioned(rows: seq<InteractionRow>)
    ensures forall n :: n in FileNodes(rows) <==> MentionedIn(n, rows)
  {
    var nodes := FileNodes(rows);
    forall n | n in nodes
      ensures MentionedIn(n, rows)
    {
      var j :| 0 <= j < |nodes| && nodes[j] == n;
      if j < |rows| {
        assert rows[j] in rows && n == SideA(rows[j]);
      } else {
        assert rows[j - |rows|] in rows && n == SideB(rows[j - |rows|]);
      }
    }
    forall n | MentionedIn(n, rows)
      ensures n in nodes
    {
      var r :| r in rows && (n == SideA(r) || n == SideB(r));
      var i :| 0 <= i < |rows| && rows[i] == r;
      assert nodes[i] == SideA(r) && nodes[|rows| + i] == SideB(r);
    }
  }

  /** Lines 122-125: the columns DDInterID_A, DDInterID_B and Level, with the
      file's class as a constant Class column. */
  function FileEdges(rows: seq<InteractionRow>, interactionClass: string): (edges: seq<EdgeRow>)
    ensures |edges| == |rows|
    ensures forall i :: 0 <= i < |rows| ==> EdgeOf(edges[i], rows[i]) && edges[i].position == i
    ensures forall i :: 0 <= i < |rows| ==> edges[i].interactionClass == interactionClass
  {
    seq(|rows|, i requires 0 <= i < |rows| => EdgeRow(i, rows[i].idA, rows[i].idB, rows[i].level, interactionClass))
  }

  /** Lines 94-130, given the lookup of every file: the first file whose lookup
      found nothing aborts the run; otherwise each file appends two node rows per
      row and one edge row per row, tagged with its class. */
  function Gather(files: seq<DataFile>, lookups: seq<Lookup>): (r: Result<Tables, PreprocessError>)
    requires |lookups| == |files|
    ensures r.Success? <==> AllFound(lookups)
    ensures r.Failure? ==> var k := FirstMissingIndex(lookups); r.error == UnknownCategory(files[k].path, lookups[k].code)
    ensures r.Success? ==> |r.value.nodes| == 2 * TotalRows(files)
    ensures r.Success? ==> |r.value.edges| == TotalRows(files)
    decreases |files|
  {
    if |files| == 0 then Success(Tables([], []))
    else
      var n := |files|;
      FirstMissingIndexPrefix(lookups);
      match Gather(files[..n - 1], lookups[..n - 1])
      case Failure(e) => Failure(e)
      case Success(t) =>
        match lookups[n - 1].className
        case None =>
          FirstMissingIndexUnique(lookups, n - 1);
          Failure(UnknownCategory(files[n - 1].path, lookups[n - 1].code))
        case Some(interactionClass) =>
          Success(Tables(t.nodes + FileNodes(files[n - 1].rows), t.edges + FileEdges(files[n - 1].rows, interactionClass)))
  }

  /** One step of the file loop: the tables for `files` are those for all but
      the last file with the last file's tables appended. */
  lemma GatherStep(files: seq<DataFile>, lookups: seq<Lookup>)
    requires |lookups| == |files| > 0 && Gather(files, lookups).Success?
    ensures var n := |files|;
      && Gather(files[..n - 1], lookups[..n - 1]).Success?
      && lookups[n - 1].className.Some?
      && TotalRows(files) == TotalRows(files[..n - 1]) + |files[n - 1].rows|
      && AllRows(files) == AllRows(files[..n - 1]) + files[n - 1].rows
      && Gather(files, lookups).value.nodes == Gather(files[..n - 1], lookups[..n - 1]).value.nodes + FileNodes(files[n - 1].rows)
      && Gather(files, lookups).value.edges
        == Gather(files[..n - 1], lookups[..n - 1]).value.edges + FileEdges(files[n - 1].rows, lookups[n - 1].className.value)
  {
  }

  /** Every row of the gathered node table is a participant of some input row,
      on either side, and every participant of every input row is there. */
  lemma {:induction false} GatheredNodesMentioned(files: seq<DataFile>, lookups: seq<Lookup>)
    requires |lookups| == |files| && Gather(files, lookups).Success?
    ensures forall n :: n in Gather(files, lookups).value.nodes <==> MentionedIn(n, AllRows(files))
    decreases |files|
  {
    var n := |files|;
    if n > 0 {
      GatherStep(files, lookups);
      GatheredNodesMentioned(files[..n - 1], lookups[..n - 1]);
      FileNodesMentioned(files[n - 1].rows);
      MentionedInConcat(AllRows(files[..n - 1]), files[n - 1].rows);
    }
  }

  /** Being mentioned in a concatenation means being mentioned in one part. */
  lemma MentionedInConcat(a: seq<InteractionRow>, b: seq<InteractionRow>)
    ensures forall n :: MentionedIn(n, a + b) <==> MentionedIn(n, a) || MentionedIn(n, b)
  {
    forall n | MentionedIn(n, a + b)
      ensures MentionedIn(n, a) || MentionedIn(n, b)
    {
      var r :| r in a + b && (n == SideA(r) || n == SideB(r));
      assert r in a || r in b;
    }
    forall n | MentionedIn(n, a) || MentionedIn(n, b)
      ensures MentionedIn(n, a + b)
    {
      if MentionedIn(n, a) {
        var r :| r in a && (n == SideA(r) || n == SideB(r));
        assert r in a + b;
      } else {
        var r :| r in b && (n == SideA(r) || n == SideB(r));
        assert r in a + b;
      }
    }
  }

  /** Edge row `j` of the gathered table records input row `j` of the
      concatenated input. */
  lemma {:induction false} GatheredEdgesFollowRows(files: seq<DataFile>, lookups: seq<Lookup>)
    requires |lookups| == |files| && Gather(files, lookups).Success?
    ensures var edges := Gather(files, lookups).value.edges;
      forall j :: 0 <= j < |edges| ==> EdgeOf(edges[j], AllRows(files)[j])
    decreases |files|
  {
    var n := |files|;
    if n > 0 {
      GatherStep(files, lookups);
      GatheredEdgesFollowRows(files[..n - 1], lookups[..n - 1]);
      var before := Gather(files[..n - 1], lookups[..n - 1]).value.edges;
      var edges := Gather(files, lookups).value.edges;
      var rows := files[n - 1].rows;
      forall j | |before| <= j < |edges|
        ensures EdgeOf(edges[j], AllRows(files)[j])
      {
        assert AllRows(files)[j] == rows[j - |before|];
      }
    }
  }

  /** Row `i` of file `k` gives edge row `TotalRows(files[..k]) + i`, which carries
      the row's position in its file and the class found for that file. */
  lemma {:induction false} GatheredEdgeOfRow(files: seq<DataFile>, lookups: seq<Lookup>, k: int, i: int)
    requires |lookups| == |files| && Gather(files, lookups).Success?
    requires 0 <= k < |files| && 0 <= i < |files[k].rows|
    ensures lookups[k].className.Some? && TotalRows(files[..k]) + i < TotalRows(files)
    ensures var row := files[k].rows[i];
      Gather(files, lookups).value.edges[TotalRows(files[..k]) + i]
        == EdgeRow(i, row.idA, row.idB, row.level, lookups[k].className.value)
    decreases |files|
  {
    var n := |files|;
    GatherStep(files, lookups);
    var before := Gather(files[..n - 1], lookups[..n - 1]).value.edges;
    var edges := Gather(files, lookups).value.edges;
    var offset := TotalRows(files[..k]);
    if k < n - 1 {
      assert files[..n - 1][k] == files[k] && files[..n - 1][..k] == files[..k];
      assert lookups[..n - 1][k] == lookups[k];
      GatheredEdgeOfRow(files[..n - 1], lookups[..n - 1], k, i);
      assert edges[offset + i] == before[offset + i];
    } else {
      assert files[..k] == files[..n - 1];
      assert edges[offset + i] == FileEdges(files[k].rows, lookups[k].className.value)[i];
    }
  }

  /** The node rows of file `k` sit, in their own order, from position
      `2 * TotalRows(files[..k])` of the gathered node table on. */
  lemma {:induction false} GatheredFileNodes(files: seq<DataFile>, lookups: seq<Lookup>, k: int, j: int)
    requires |lookups| == |files| && Gather(files, lookups).Success?
    requires 0 <= k < |files| && 0 <= j < 2 * |files[k].rows|
    ensures 2 * TotalRows(files[..k]) + j < 2 * TotalRows(files)
    ensures Gather(files, lookups).value.nodes[2 * TotalRows(files[..k]) + j] == FileNodes(files[k].rows)[j]
    decreases |files|
  {
    var n := |files|;
    GatherStep(files, lookups);
    var before := Gather(files[..n - 1], lookups[..n - 1]).value.nodes;
    var nodes := Gather(files, lookups).value.nodes;
    var at := 2 * TotalRows(files[..k]) + j;
    if k < n - 1 {
      assert files[..n - 1][k] == files[k] && files[..n - 1][..k] == files[..k];
      GatheredFileNodes(files[..n - 1], lookups[..n - 1], k, j);
      assert nodes[at] == before[at];
    } else {
      assert files[..k] == files[..n - 1];
      assert nodes[at] == FileNodes(files[k].rows)[j];
    }
  }

  /** Row `i` of file `k` puts its two participants into the node table before
      deduplication, at `2 * TotalRows(files[..k]) + i` and `|files[k].rows|`
      places later: each file stacks all first participants above all second
      participants. Which classes the files have does not matter. */
  lemma NodesOfRow(files: seq<DataFile>, lookups: seq<Lookup>, k: int, i: int)
    requires |lookups| == |files| && Gather(files, lookups).Success?
    requires 0 <= k < |files| && 0 <= i < |files[k].rows|
    ensures var base := 2 * TotalRows(files[..k]);
      && base + |files[k].rows| + i < |Gather(files, lookups).value.nodes|
      && Gather(files, lookups).value.nodes[base + i] == SideA(files[k].rows[i])
      && Gather(files, lookups).value.nodes[base + |files[k].rows| + i] == SideB(files[k].rows[i])
  {
    var rows := files[k].rows;
    GatheredFileNodes(files, lookups, k, i);
    GatheredFileNodes(files, lookups, k, |rows| + i);
    var own := FileNodes(rows);
    assert own[i] == SideA(rows[i]) && own[|rows| + i] == SideB(rows[i]);
  }

  /** Lines 91-130: the tables before node deduplication, with every file's class
      looked up from its name. */
  function Concatenate(files: seq<DataFile>): (r: Result<Tables, PreprocessError>)
    ensures r.Success? <==> AllKnown(files)
    ensures r.Success? ==> |r.value.nodes| == 2 * TotalRows(files) && |r.value.edges| == TotalRows(files)
  {
    assert AllKnown(files) <==> AllFound(Lookups(files));
    Gather(files, Lookups(files))
  }

  /** `_preprocess`: the concatenated tables with duplicate node rows dropped
      (line 133); edge rows are kept as they are. The first file whose code is
      unknown aborts the run. */
  function Preprocess(files: seq<DataFile>): (r: Result<Tables, PreprocessError>)
    ensures r.Success? <==> AllKnown(files)
    ensures r.Failure? ==> exists k :: FirstUnknown(files, k) && r.error == UnknownCategoryOf(files[k])
    ensures r.Success? ==> NoDuplicates(r.value.nodes)
    ensures r.Success? ==> forall n :: n in r.value.nodes <==> MentionedIn(n, AllRows(files))
    ensures r.Success? ==> |r.value.edges| == TotalRows(files)
    ensures r.Success? ==> forall j :: 0 <= j < |r.value.edges| ==> EdgeOf(r.value.edges[j], AllRows(files)[j])
    ensures r.Success? ==> InFirstSeenOrder(r.value.nodes, Concatenate(files).value.nodes)
  {
    var lookups := Lookups(files);
    assert AllKnown(files) <==> AllFound(lookups);
    match Gather(files, lookups)
    case Failure(e) =>
      var k := FirstMissingIndex(lookups);
      assert FirstUnknown(files, k);
      Failure(e)
    case Success(t) =>
      GatheredNodesMentioned(files, lookups);
      GatheredEdgesFollowRows(files, lookups);
      Success(Tables(Dedup(t.nodes), t.edges))
  }

  /** Row `i` of file `k` becomes edge `TotalRows(files[..k]) + i` of the adapter:
      edges keep file order and row order, are never merged, carry the row's
      position in its file, and are tagged with the class of the file's code. */
  lemma EdgeOfRow(files: seq<DataFile>, k: int, i: int)
    requires Preprocess(files).Success?
    requires 0 <= k < |files| && 0 <= i < |files[k].rows|
    ensures Known(files[k]) && TotalRows(files[..k]) + i < TotalRows(files)
    ensures var row := files[k].rows[i];
      Preprocess(files).value.edges[TotalRows(files[..k]) + i]
        == EdgeRow(i, row.idA, row.idB, row.level, ClassOfFile(files[k]))
  {
    GatheredEdgeOfRow(files, Lookups(files), k, i);
  }
}
