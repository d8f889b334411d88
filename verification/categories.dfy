/** The interaction class of a data file: a one-letter category code taken from
    the file name and looked up in a fixed table (`ddinter_adapter.py`, lines
    98-109 and 125). */
module Categories {
  import opened Results
  import opened Text

  /** The category codes the table knows. */
  const KnownCodes: set<string> := {"A", "B", "D", "H", "L", "P", "R", "V"}

  /** The fixed table from category code to interaction class name. */
  const ClassNames: map<string, string> := map[
    "A" := "Alimentary tract and metabolism",
    "B" := "Blood and blood forming organs",
    "D" := "Dermatologicals",
    "H" := "Systemic hormonal preparations",
    "L" := "Antineoplastic and immunomodulating agents",
    "P" := "Antiparasitic products",
    "R" := "Respiratory system",
    "V" := "Various"
  ]

  /** Line 99, `file_path.split("_")[-1].split(".")[0]`: the part of the path
      after its last underscore, cut at the first dot that follows. The whole
      path counts, so an underscore in a directory name matters when the file
      name has none. */
  function CategoryCode(path: string): string
  {
    BeforeFirst(AfterLast(path, '_'), '.')
  }

  /** `CategoryCode` computes exactly Python's split expression. */
  lemma CategoryCodeIsSplitExpression(path: string)
    ensures var pieces := Split(path, '_');
      CategoryCode(path) == Split(pieces[|pieces| - 1], '.')[0]
  {
    AfterLastIsLastPiece(path, '_');
    BeforeFirstIsFirstPiece(AfterLast(path, '_'), '.');
  }

  /** `path[i..j]` is where a category code sits: it starts the path or follows an
      underscore, no underscore comes after `i`, it holds no dot, and it ends the
      path or is followed by a dot. */
  predicate CodeSpan(path: string, i: nat, j: nat)
  {
    && i <= j <= |path|
    && (i == 0 || path[i - 1] == '_')
    && '_' !in path[i..]
    && '.' !in path[i..j]
    && (j == |path| || path[j] == '.')
  }

  /** Every path has such a span, and `CategoryCode` returns its text. */
  lemma CategoryCodeLocated(path: string) returns (i: nat, j: nat)
    ensures CodeSpan(path, i, j) && CategoryCode(path) == path[i..j]
  {
    var tail := AfterLast(path, '_');
    AfterLastShape(path, '_');
    BeforeFirstShape(tail, '.');
    var code := BeforeFirst(tail, '.');
    i := |path| - |tail|;
    j := i + |code|;
    assert path[i..j] == tail[..|code|] == code;
    if j < |path| {
      assert path[j] == tail[|code|];
    }
  }

  /** The span is unique: whatever span a path has, `CategoryCode` returns exactly
      its text. */
  lemma CategoryCodeDetermined(path: string, i: nat, j: nat)
    requires CodeSpan(path, i, j)
    ensures CategoryCode(path) == path[i..j]
  {
    LastPieceAfter(path, '_', i);
    AfterLastIsLastPiece(path, '_');
    var tail := path[i..];
    assert tail[..j - i] == path[i..j];
    FirstPieceBefore(tail, '.', j - i);
    BeforeFirstIsFirstPiece(tail, '.');
  }

  /** `interaction_class_dict[code]`: the class name for a known code; an unknown
      code has none (the dictionary lookup raises). */
  function ClassOf(code: string): (r: Option<string>)
    ensures r.Some? <==> code in KnownCodes
    ensures r.Some? ==> r.value in ClassNames.Values
  {
    if code in ClassNames then Some(ClassNames[code]) else None
  }

  /** Distinct codes name distinct classes, so an edge's class tells which
      category file it came from. */
  lemma ClassNamesDistinct(c1: string, c2: string)
    requires ClassOf(c1).Some? && ClassOf(c2).Some?
    requires ClassOf(c1) == ClassOf(c2)
    ensures c1 == c2
  {
  }

  /** The class of each known code, one lookup at a time. */
  lemma ClassOfA()
    ensures ClassOf("A") == Some("Alimentary tract and metabolism")
  {
  }

  lemma ClassOfB()
    ensures ClassOf("B") == Some("Blood and blood forming organs")
  {
  }

  lemma ClassOfZ()
    ensures ClassOf("Z") == None
  {
  }
}
