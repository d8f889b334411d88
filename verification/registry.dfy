/** The adapter's closed enumerations of node types, drug fields, edge types and
    edge fields, and the resolution of the caller's optional selections against
    them (`ddinter_adapter.py`, the four enums and `_set_types_and_fields`). */
module Registry {
  import opened Results
  import opened Seqs

  /** `DDInterAdapterNodeType`. */
  datatype NodeType = Drug

  /** `DDInterAdapterDrugField`: ID is the column "DDInterID", NAME is "Drug". */
  datatype DrugField = Id | Name

  /** `DDInterAdapterEdgeType`. */
  datatype EdgeType = DrugDrugInteraction

  /** `DDInterAdapterDrugDrugEdgeField`: INTERACTION_LEVEL is the column "Level". */
  datatype EdgeField = InteractionType | InteractionLevel | Class

  /** One element of a list the caller passes in. Nothing checks that it is a
      member of the enumeration, so anything else the caller supplies is kept
      as `Foreign` and simply never matches. */
  datatype Entry<E> = Member(member: E) | Foreign(text: string)

  /** The four lists the adapter keeps after construction. */
  datatype Selection = Selection(
    nodeTypes: seq<Entry<NodeType>>,
    nodeFields: seq<Entry<DrugField>>,
    edgeTypes: seq<Entry<EdgeType>>,
    edgeFields: seq<Entry<EdgeField>>)

  /** Python truthiness of an optional list argument: given and non-empty. */
  predicate Supplied<E>(requested: Option<seq<E>>)
  {
    requested.Some? && |requested.value| > 0
  }

  /** `s` is the full member list of an enumeration: every member, once, and
      nothing foreign. */
  ghost predicate ListsAll<E(!new)>(s: seq<Entry<E>>)
  {
    && NoDuplicates(s)
    && (forall e: E :: Member(e) in s)
    && (forall i :: 0 <= i < |s| ==> s[i].Member?)
  }

  /** The member lists of the enumerations, in declaration order. */
  const AllNodeTypes: seq<Entry<NodeType>> := [Member(Drug)]
  const AllDrugFields: seq<Entry<DrugField>> := [Member(Id), Member(Name)]
  const AllEdgeTypes: seq<Entry<EdgeType>> := [Member(DrugDrugInteraction)]

  lemma DefaultsListAll()
    ensures ListsAll(AllNodeTypes) && ListsAll(AllDrugFields) && ListsAll(AllEdgeTypes)
  {
    forall e: NodeType
      ensures Member(e) in AllNodeTypes
    {
      match e
      case Drug => assert AllNodeTypes[0] == Member(e);
    }
    forall e: DrugField
      ensures Member(e) in AllDrugFields
    {
      match e
      case Id => assert AllDrugFields[0] == Member(e);
      case Name => assert AllDrugFields[1] == Member(e);
    }
    forall e: EdgeType
      ensures Member(e) in AllEdgeTypes
    {
      match e
      case DrugDrugInteraction => assert AllEdgeTypes[0] == Member(e);
    }
  }

  /** The list the adapter keeps for one argument: the caller's list when it is
      non-empty, the default otherwise. */
  function Resolve<E>(requested: Option<seq<Entry<E>>>, default: seq<Entry<E>>): seq<Entry<E>>
  {
    if Supplied(requested) then requested.value else default
  }

  /** `_set_types_and_fields`. A non-empty list is kept exactly as given; an absent
      or empty node-type, node-field or edge-type list becomes the full member list
      of its enumeration; an absent or empty edge-field list becomes empty, since
      the default there is built from `chain()` with no arguments. The defaults
      are the members in declaration order (`[ID, NAME]` for node fields), an
      order `ListsAll` does not pin down; nothing reads the node-field list.
      A caller's list is kept by reference in the program; here it is a value,
      fixed at construction. */
  function SetTypesAndFields(
    nodeTypes: Option<seq<Entry<NodeType>>>,
    nodeFields: Option<seq<Entry<DrugField>>>,
    edgeTypes: Option<seq<Entry<EdgeType>>>,
    edgeFields: Option<seq<Entry<EdgeField>>>): (s: Selection)
    ensures Supplied(nodeTypes) ==> s.nodeTypes == nodeTypes.value
    ensures !Supplied(nodeTypes) ==> ListsAll(s.nodeTypes)
    ensures Supplied(nodeFields) ==> s.nodeFields == nodeFields.value
    ensures !Supplied(nodeFields) ==> ListsAll(s.nodeFields)
    ensures Supplied(edgeTypes) ==> s.edgeTypes == edgeTypes.value
    ensures !Supplied(edgeTypes) ==> ListsAll(s.edgeTypes)
    ensures Supplied(edgeFields) ==> s.edgeFields == edgeFields.value
    ensures !Supplied(edgeFields) ==> s.edgeFields == []
    ensures |s.nodeTypes| > 0 && |s.nodeFields| > 0 && |s.edgeTypes| > 0
  {
    DefaultsListAll();
    Selection(
      Resolve(nodeTypes, AllNodeTypes),
      Resolve(nodeFields, AllDrugFields),
      Resolve(edgeTypes, AllEdgeTypes),
      Resolve(edgeFields, []))
  }

  /** Whether drug nodes are produced: `DRUG in self.node_types`. */
  predicate DrugNodesActive(s: Selection)
  {
    Member(Drug) in s.nodeTypes
  }

  /** Without a node-type list drug nodes are always produced; with one, exactly
      when the list names DRUG. */
  lemma DrugNodesActiveUnderSelection(
    nodeTypes: Option<seq<Entry<NodeType>>>,
    nodeFields: Option<seq<Entry<DrugField>>>,
    edgeTypes: Option<seq<Entry<EdgeType>>>,
    edgeFields: Option<seq<Entry<EdgeField>>>)
    ensures var s := SetTypesAndFields(nodeTypes, nodeFields, edgeTypes, edgeFields);
      DrugNodesActive(s) <==> !Supplied(nodeTypes) || Member(Drug) in nodeTypes.value
  {
  }
}
