/** The adapter object (`DDInterAdapter`): construction from a list of category
    files and optional selections, and the node and edge records it hands to the
    graph writer. The records are produced eagerly here as sequences; the source's
    generators yield the same records in the same order on every call. */
module Adapter {
  import opened Results
  import opened Seqs
  import opened Text
  import opened Registry
  import opened Categories
  import opened Preprocessing

  /** A node tuple `(id, label, properties)`. */
  datatype NodeRecord = NodeRecord(id: string, kind: string, properties: map<string, string>)

  /** An edge tuple `(id, source, target, label, properties)`. */
  datatype EdgeRecord = EdgeRecord(id: string, source: string, target: string, kind: string, properties: map<string, string>)

  /** A constructed adapter: its resolved selection and its two tables. */
  datatype DDInterAdapter = DDInterAdapter(selection: Selection, tables: Tables)

  /** The apostrophe, stripped from drug names. */
  const Apostrophe: char := '\''

  /** `__init__`: the selection is resolved first, then the files are
      preprocessed; an unknown category code in any file leaves no adapter. */
  function New(
    files: seq<DataFile>,
    nodeTypes: Option<seq<Entry<NodeType>>>,
    nodeFields: Option<seq<Entry<DrugField>>>,
    edgeTypes: Option<seq<Entry<EdgeType>>>,
    edgeFields: Option<seq<Entry<EdgeField>>>): (r: Result<DDInterAdapter, PreprocessError>)
    ensures r.Success? <==> AllKnown(files)
    ensures r.Failure? ==> exists k :: FirstUnknown(files, k) && r.error == UnknownCategoryOf(files[k])
    ensures r.Success? ==> r.value.selection == SetTypesAndFields(nodeTypes, nodeFields, edgeTypes, edgeFields)
    ensures r.Success? ==> Preprocess(files) == Success(r.value.tables)
  {
    var selection := SetTypesAndFields(nodeTypes, nodeFields, edgeTypes, edgeFields);
    match Preprocess(files)
    case Failure(e) => Failure(e)
    case Success(tables) => Success(DDInterAdapter(selection, tables))
  }

  /** The node tuple for one row of the node table (lines 145-151). */
  function NodeRecordOf(n: NodeRow): NodeRecord
  {
    NodeRecord(n.id, "drug", map["name" := RemoveAll(n.name, Apostrophe)])
  }

  /** `get_nodes`: when DRUG is an active node type, one "drug" tuple per row of
      the node table, in table order, whose only property is the name with its
      apostrophes removed; otherwise nothing. */
  function GetNodes(a: DDInterAdapter): (nodes: seq<NodeRecord>)
    ensures DrugNodesActive(a.selection) ==> |nodes| == |a.tables.nodes|
    ensures !DrugNodesActive(a.selection) ==> nodes == []
    ensures forall i :: 0 <= i < |nodes| ==>
      && nodes[i].id == a.tables.nodes[i].id
      && nodes[i].kind == "drug"
      && nodes[i].properties.Keys == {"name"}
      && nodes[i].properties["name"] == RemoveAll(a.tables.nodes[i].name, Apostrophe)
      && Apostrophe !in nodes[i].properties["name"]
  {
    if DrugNodesActive(a.selection) then
      seq(|a.tables.nodes|, i requires 0 <= i < |a.tables.nodes| => NodeRecordOf(a.tables.nodes[i]))
    else []
  }

  /** The edge tuple for one row of the edge table (lines 166-177). The identifier
      is the digest of the row's text, which includes the row's index label. */
  function EdgeRecordOf(e: EdgeRow, digest: EdgeRow -> string): EdgeRecord
  {
    EdgeRecord(digest(e), e.idA, e.idB, "drug_drug_interaction", map["level" := e.level, "class" := e.interactionClass])
  }

  /** `get_edges`: one "drug_drug_interaction" tuple per row of the edge table, in
      table order, from the first to the second participant, with exactly the
      properties level and class. No type or field selection is applied. */
  function GetEdges(a: DDInterAdapter, digest: EdgeRow -> string): (edges: seq<EdgeRecord>)
    ensures |edges| == |a.tables.edges|
    ensures forall j :: 0 <= j < |edges| ==>
      && edges[j].id == digest(a.tables.edges[j])
      && edges[j].source == a.tables.edges[j].idA
      && edges[j].target == a.tables.edges[j].idB
      && edges[j].kind == "drug_drug_interaction"
      && edges[j].properties.Keys == {"level", "class"}
      && edges[j].properties["level"] == a.tables.edges[j].level
      && edges[j].properties["class"] == a.tables.edges[j].interactionClass
  {
    seq(|a.tables.edges|, j requires 0 <= j < |a.tables.edges| => EdgeRecordOf(a.tables.edges[j], digest))
  }

  /** `get_node_count`: the length of the node sequence, which is the number of
      rows in the node table when drug nodes are active and zero otherwise. */
  function GetNodeCount(a: DDInterAdapter): (count: nat)
    ensures count == |GetNodes(a)|
    ensures count == (if DrugNodesActive(a.selection) then |a.tables.nodes| else 0)
  {
    |GetNodes(a)|
  }

  /** The (id, name) pairs that occur as a participant of some row. */
  ghost function Participants(rows: seq<InteractionRow>): set<NodeRow>
  {
    (set r | r in rows :: SideA(r)) + (set r | r in rows :: SideB(r))
  }

  /** Every identifier is always paired with the same name. */
  ghost predicate NamesConsistent(rows: seq<InteractionRow>)
  {
    forall n1, n2 :: MentionedIn(n1, rows) && MentionedIn(n2, rows) && n1.id == n2.id ==> n1.name == n2.name
  }

  /** The number of edges is the number of input rows over all files: no edge is
      dropped or merged. */
  lemma EdgeCountIsRowCount(
    files: seq<DataFile>,
    nodeTypes: Option<seq<Entry<NodeType>>>,
    nodeFields: Option<seq<Entry<DrugField>>>,
    edgeTypes: Option<seq<Entry<EdgeType>>>,
    edgeFields: Option<seq<Entry<EdgeField>>>,
    digest: EdgeRow -> string)
    requires New(files, nodeTypes, nodeFields, edgeTypes, edgeFields).Success?
    ensures |GetEdges(New(files, nodeTypes, nodeFields, edgeTypes, edgeFields).value, digest)| == TotalRows(files)
  {
  }

  /** Row `i` of file `k` is emitted as edge `TotalRows(files[..k]) + i`, from its
      first to its second participant, with its level and the class named by the
      code in its file's name. */
  lemma EdgeRecordOfRow(files: seq<DataFile>, a: DDInterAdapter, digest: EdgeRow -> string, k: int, i: int)
    requires Preprocess(files) == Success(a.tables)
    requires 0 <= k < |files| && 0 <= i < |files[k].rows|
    ensures CategoryCode(files[k].path) in KnownCodes
    ensures TotalRows(files[..k]) + i < |GetEdges(a, digest)|
    ensures var e := GetEdges(a, digest)[TotalRows(files[..k]) + i];
      var row := files[k].rows[i];
      && e.source == row.idA && e.target == row.idB
      && e.properties["level"] == row.level
      && e.properties["class"] == ClassNames[CategoryCode(files[k].path)]
  {
    EdgeOfRow(files, k, i);
  }

  /** Edge identifiers are a function of the edge row: equal rows, including
      their index labels, get equal identifiers. */
  lemma EdgeIdsDeterministic(a: DDInterAdapter, digest: EdgeRow -> string, j1: int, j2: int)
    requires 0 <= j1 < |a.tables.edges| && 0 <= j2 < |a.tables.edges|
    requires a.tables.edges[j1] == a.tables.edges[j2]
    ensures GetEdges(a, digest)[j1].id == GetEdges(a, digest)[j2].id
  {
  }

  /** With drug nodes active, every participant of every input row, on either
      side, is emitted as a node with its name's apostrophes removed. */
  lemma NodesCoverParticipants(files: seq<DataFile>, a: DDInterAdapter)
    requires Preprocess(files) == Success(a.tables)
    requires DrugNodesActive(a.selection)
    ensures forall r :: r in AllRows(files) ==>
      NodeRecordOf(SideA(r)) in GetNodes(a) && NodeRecordOf(SideB(r)) in GetNodes(a)
  {
    var nodes := GetNodes(a);
    var table := a.tables.nodes;
    forall r | r in AllRows(files)
      ensures NodeRecordOf(SideA(r)) in nodes && NodeRecordOf(SideB(r)) in nodes
    {
      assert MentionedIn(SideA(r), AllRows(files)) && MentionedIn(SideB(r), AllRows(files));
      var i := FirstIndex(table, SideA(r));
      var j := FirstIndex(table, SideB(r));
      assert nodes[i] == NodeRecordOf(SideA(r)) && nodes[j] == NodeRecordOf(SideB(r));
    }
  }

  /** Every emitted node is the record of a node-table row, which is a
      participant of some input row, and no node-table row is emitted twice.
      Emitted tuples may still repeat: names are stripped after deduplication. */
  lemma NodesComeFromParticipants(files: seq<DataFile>, a: DDInterAdapter)
    requires Preprocess(files) == Success(a.tables)
    requires DrugNodesActive(a.selection)
    ensures NoDuplicates(a.tables.nodes)
    ensures forall i :: 0 <= i < |GetNodes(a)| ==>
      GetNodes(a)[i] == NodeRecordOf(a.tables.nodes[i]) && MentionedIn(a.tables.nodes[i], AllRows(files))
  {
    var nodes := GetNodes(a);
    var table := a.tables.nodes;
    forall i | 0 <= i < |nodes|
      ensures nodes[i] == NodeRecordOf(table[i]) && MentionedIn(table[i], AllRows(files))
    {
      assert table[i] in table;
    }
  }

  /** The node count is the number of distinct (id, name) pairs in the input when
      drug nodes are active. */
  lemma NodeCountIsDistinctPairs(files: seq<DataFile>, a: DDInterAdapter)
    requires Preprocess(files) == Success(a.tables)
    requires DrugNodesActive(a.selection)
    ensures GetNodeCount(a) == |Participants(AllRows(files))|
  {
    var rows := AllRows(files);
    DistinctLength(a.tables.nodes);
    forall n
      ensures n in Elements(a.tables.nodes) <==> n in Participants(rows)
    {
      if n in Participants(rows) {
        assert MentionedIn(n, rows);
      }
    }
    assert Elements(a.tables.nodes) == Participants(rows);
  }

  /** When every identifier comes with one name throughout the input, no two
      nodes share an identifier. Deduplication is by (id, name) pair, so without
      this condition an identifier can appear once per name. */
  lemma NodeIdsUniqueWhenNamesConsistent(files: seq<DataFile>, a: DDInterAdapter)
    requires Preprocess(files) == Success(a.tables)
    requires NamesConsistent(AllRows(files))
    ensures forall i, j :: 0 <= i < j < |GetNodes(a)| ==> GetNodes(a)[i].id != GetNodes(a)[j].id
  {
    var nodes := GetNodes(a);
    var table := a.tables.nodes;
    forall i, j | 0 <= i < j < |nodes|
      ensures nodes[i].id != nodes[j].id
    {
      assert table[i] in table && table[j] in table;
      assert table[i] != table[j];
    }
  }

  /** The emitted name is the stored name with its apostrophes deleted and
      everything else in order: unchanged when it has none, and with every
      other character kept as often as it occurs. */
  lemma NodeNameSanitized(a: DDInterAdapter, i: int)
    requires DrugNodesActive(a.selection) && 0 <= i < |a.tables.nodes|
    ensures var name := a.tables.nodes[i].name;
      var emitted := GetNodes(a)[i].properties["name"];
      && emitted == RemoveAll(name, Apostrophe)
      && (Apostrophe !in name ==> emitted == name)
      && (forall c :: c != Apostrophe ==> multiset(emitted)[c] == multiset(name)[c])
  {
    var name := a.tables.nodes[i].name;
    assert GetNodes(a)[i] == NodeRecordOf(a.tables.nodes[i]);
    RemoveAllCounts(name, Apostrophe);
    if Apostrophe !in name {
      RemoveAllAbsent(name, Apostrophe);
    }
  }
}
