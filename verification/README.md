# DDInter adapter model

A Dafny model of the DDInter adapter of a BioCypher drug-interaction knowledge graph
(`drug_interactions/adapters/ddinter_adapter.py`). The adapter is given a list of
DDInter category files (`ddinter_downloads_code_<X>.csv`). Each file holds rows
`(DDInterID_A, Drug_A, DDInterID_B, Drug_B, Level)`. From them the adapter builds:

- a **node table** of `(DDInterID, Drug)` pairs: both participants of every row,
  concatenated over all files, with exact duplicate pairs dropped;
- an **edge table** of `(DDInterID_A, DDInterID_B, Level, Class)`: one edge per row,
  never deduplicated. `Class` is the interaction class named by the one-letter
  category code at the end of the file name.

From these tables it emits node tuples `(id, "drug", {name})` and edge tuples
`(id, source, target, "drug_drug_interaction", {level, class})`. It also resolves
optional caller selections of node types, node fields, edge types and edge fields.

Modules, in dependency order:

| file | module | what it holds |
|---|---|---|
| `results.dfy` | `Results` | `Option` and `Result` |
| `text.dfy` | `Text` | Python's `str.split` and `join`, the last-piece and first-piece scans, `str.replace(c, "")` |
| `seqs.dfy` | `Seqs` | keep-first deduplication (pandas `drop_duplicates`) and its characterisation |
| `registry.dfy` | `Registry` | the four enumerations and `_set_types_and_fields` |
| `categories.dfy` | `Categories` | the category code of a path and the 8-entry class table |
| `preprocessing.dfy` | `Preprocessing` | `_preprocess`: per-file reshaping, concatenation, node deduplication |
| `adapter.dfy` | `Adapter` | construction, `get_nodes`, `get_edges`, `get_node_count` |
| `examples.dfy` | `Examples` | concrete file names and a two-file scenario |

Behaviour of the code worth noting:

- `edge_fields`, unlike the other three selections, defaults to the empty list. Its
  default is built from `chain()` with no arguments (line 204).
- The category code comes from the whole path string, not just the base name. An
  underscore in a directory name therefore counts when the file name has none.
- `pd.concat([df1, df2])` puts all first participants of a file before all of its
  second participants. Deduplication keeps the first occurrence in that order.
- Node deduplication compares the whole `(id, name)` pair. One identifier spelled
  two ways therefore yields two nodes with the same identifier
  (`Examples.ConflictingNamesGiveTwoNodes`).
- Deduplication (line 133) runs before apostrophes are stripped (line 149). Two
  spellings that differ only in apostrophes survive as two node-table rows, and
  both are emitted as the same node tuple (`Examples.ApostropheVariantsGiveSameNode`).
- The text behind an edge's MD5 identifier is pandas' rendering of the row. That
  rendering includes the row's index label, which is its position within its own
  file. `EdgeRow` therefore carries `position`, and the digest is a function
  parameter `EdgeRow -> string` of `GetEdges`.

## Model

| member | source | states |
|---|---|---|
| Registry.SetTypesAndFields | drug_interactions/adapters/ddinter_adapter.py:185-204 | A non-empty list argument is stored exactly as given. An absent or empty node-type, node-field or edge-type list becomes the full member list of its enum: every member once, nothing else. An absent or empty edge-field list becomes empty. |
| Registry.DefaultsListAll | drug_interactions/adapters/ddinter_adapter.py:24-56 | The default lists contain each enum member (DRUG; ID, NAME; DRUG_DRUG_INTERACTION) exactly once and nothing else. |
| Registry.DrugNodesActiveUnderSelection | drug_interactions/adapters/ddinter_adapter.py:143 | Drug nodes are produced if and only if no node-type list was given, or the given list contains DRUG. |
| Text.Split | drug_interactions/adapters/ddinter_adapter.py:99 | `str.split` on one character yields at least one piece, and no piece contains the separator. |
| Text.JoinSplit | drug_interactions/adapters/ddinter_adapter.py:99 | `str.split`'s pieces joined with the separator give back the original string. |
| Text.SplitJoin | drug_interactions/adapters/ddinter_adapter.py:99 | Splitting a join of separator-free pieces gives back the pieces, so split and join are mutually inverse. |
| Text.SplitAround | drug_interactions/adapters/ddinter_adapter.py:99 | Splitting `a + sep + b` gives the pieces of `a` followed by the pieces of `b`. |
| Text.AfterLastIsLastPiece | drug_interactions/adapters/ddinter_adapter.py:99 | The text after the last underscore is `split("_")[-1]`. |
| Text.BeforeFirstIsFirstPiece | drug_interactions/adapters/ddinter_adapter.py:99 | The text before the first dot is `split(".")[0]`. |
| Text.AfterLastShape | drug_interactions/adapters/ddinter_adapter.py:99 | The text after the last separator is a suffix without the separator. It is either the whole string or preceded by the separator. |
| Text.BeforeFirstShape | drug_interactions/adapters/ddinter_adapter.py:99 | The text before the first separator is a prefix without the separator. It is either the whole string or followed by the separator. |
| Text.RemoveAll | drug_interactions/adapters/ddinter_adapter.py:149 | `replace("'", "")` leaves no apostrophe and never lengthens the name. |
| Text.RemoveAllSingle | drug_interactions/adapters/ddinter_adapter.py:149 | A single character is deleted exactly when it is an apostrophe. |
| Text.RemoveAllConcat | drug_interactions/adapters/ddinter_adapter.py:149 | Deleting from a concatenation is concatenating the deletions. With RemoveAllSingle this fixes the result completely: the kept characters stay in their original order. |
| Text.RemoveAllCounts | drug_interactions/adapters/ddinter_adapter.py:149 | Every other character is kept as often as it occurs, and the name shortens by the number of apostrophes. |
| Text.RemoveAllAbsent | drug_interactions/adapters/ddinter_adapter.py:149 | A name without apostrophes is unchanged. |
| Text.RemoveAllIdempotent | drug_interactions/adapters/ddinter_adapter.py:149 | Stripping apostrophes twice is the same as once. |
| Categories.CategoryCodeIsSplitExpression | drug_interactions/adapters/ddinter_adapter.py:99 | The modelled code is exactly `path.split("_")[-1].split(".")[0]`. |
| Categories.CategoryCodeLocated | drug_interactions/adapters/ddinter_adapter.py:99 | Every path has a code span: it starts the path or follows an underscore, has no underscore after its start, contains no dot, and ends the path or is followed by a dot. The code is the text of that span. |
| Categories.CategoryCodeDetermined | drug_interactions/adapters/ddinter_adapter.py:99 | Any span with those properties is the code, so the code is uniquely determined. |
| Categories.ClassOf | drug_interactions/adapters/ddinter_adapter.py:100-125 | A code has a class if and only if it is one of A, B, D, H, L, P, R, V. The class is always one of the eight table names. |
| Categories.ClassNamesDistinct | drug_interactions/adapters/ddinter_adapter.py:100-109 | Different known codes map to different class names. |
| Seqs.Dedup | drug_interactions/adapters/ddinter_adapter.py:133 | `drop_duplicates` leaves no duplicates, keeps exactly the same elements, lists them in order of first occurrence, and never grows the table. |
| Seqs.DedupUnique | drug_interactions/adapters/ddinter_adapter.py:133 | Any duplicate-free list with the same elements in first-seen order equals the deduplicated table. |
| Seqs.DedupOfDistinct | drug_interactions/adapters/ddinter_adapter.py:133 | Deduplicating a table without duplicates changes nothing, so deduplication is idempotent. |
| Seqs.DedupLength | drug_interactions/adapters/ddinter_adapter.py:133 | The deduplicated table has one row per distinct element. |
| Preprocessing.FileNodes | drug_interactions/adapters/ddinter_adapter.py:113-119 | A file with n rows gives 2n node rows: row i's first participant at i, its second at n + i. |
| Preprocessing.FileNodesMentioned | drug_interactions/adapters/ddinter_adapter.py:113-119 | A file's node rows are exactly the participants of its rows, on either side. |
| Preprocessing.FileEdges | drug_interactions/adapters/ddinter_adapter.py:122-125 | One edge row per input row, with the row's ids and level, its position in the file, and the file's class. |
| Preprocessing.Gather | drug_interactions/adapters/ddinter_adapter.py:94-130 | The file loop succeeds if and only if every file's class was found. On failure, the error names the first file without a class and its code. On success there are 2 × total rows node rows and total rows edge rows. |
| Preprocessing.Concatenate | drug_interactions/adapters/ddinter_adapter.py:91-130 | Before deduplication the tables exist if and only if every code is known. They then hold 2 × total rows node rows and total rows edges. |
| Preprocessing.NodesOfRow | drug_interactions/adapters/ddinter_adapter.py:113-130 | Row i of file k puts its first participant at 2·(rows before file k) + i and its second participant one file-length later. |
| Preprocessing.Preprocess | drug_interactions/adapters/ddinter_adapter.py:82-133 | Succeeds if and only if every code is known. A failure names the first unknown file. The node table has no duplicates; it contains a pair if and only if some row mentions it on either side, in first-seen order of the concatenated table. Edge j is built from input row j, so there are exactly as many edges as rows. |
| Preprocessing.EdgeOfRow | drug_interactions/adapters/ddinter_adapter.py:122-130 | Row i of file k is edge (rows before file k) + i, with its ids, its level, its position i and the class of file k's code. |
| Preprocessing.FirstMissingIndexUnique | drug_interactions/adapters/ddinter_adapter.py:94-125 | The first file whose lookup fails is unique: the loop raises at that file and at no other. |
| Adapter.New | drug_interactions/adapters/ddinter_adapter.py:71-80 | Construction succeeds if and only if every file's code is known. A failure carries the first unknown file's path and code. A success stores the resolved selection and the preprocessed tables. |
| Adapter.GetNodes | drug_interactions/adapters/ddinter_adapter.py:143-151 | With DRUG active: one tuple per node-table row, in order, each with its row's id, label "drug", and a single property "name" that is the row's name with apostrophes deleted. Without DRUG: no tuples. |
| Adapter.GetEdges | drug_interactions/adapters/ddinter_adapter.py:164-177 | One tuple per edge-table row, in order: the digest of the row as id, source and target from the row, label "drug_drug_interaction", and exactly the properties level and class from the row. |
| Adapter.GetNodeCount | drug_interactions/adapters/ddinter_adapter.py:179-183 | The count is the length of the node sequence: the node-table size when DRUG is active, zero otherwise. |
| Adapter.EdgeCountIsRowCount | drug_interactions/adapters/ddinter_adapter.py:122-130 | A constructed adapter emits exactly as many edges as there are rows over all files. |
| Adapter.EdgeRecordOfRow | drug_interactions/adapters/ddinter_adapter.py:164-177 | Row i of file k is emitted as edge (rows before file k) + i. It goes from the row's first to its second participant, with the row's level and the class named by the file's code. |
| Adapter.EdgeIdsDeterministic | drug_interactions/adapters/ddinter_adapter.py:164-166 | Two edge-table rows that are equal, index label included, get the same identifier. |
| Adapter.NodesCoverParticipants | drug_interactions/adapters/ddinter_adapter.py:143-151 | With DRUG active, each participant of each row, on either side, is emitted as a node with its name's apostrophes removed. |
| Adapter.NodesComeFromParticipants | drug_interactions/adapters/ddinter_adapter.py:143-151 | Each emitted node is the record of a node-table row that some input row mentions, and no node-table row is emitted twice. Emitted tuples can still repeat, because names are stripped after deduplication. |
| Adapter.NodeCountIsDistinctPairs | drug_interactions/adapters/ddinter_adapter.py:179-183 | With DRUG active, the node count is the number of distinct (id, name) pairs in the input. |
| Adapter.NodeIdsUniqueWhenNamesConsistent | drug_interactions/adapters/ddinter_adapter.py:133 | If every id comes with a single name across the input, emitted node ids are pairwise distinct. |
| Adapter.NodeNameSanitized | drug_interactions/adapters/ddinter_adapter.py:149 | An emitted name is the stored name with its apostrophes deleted, in order: unchanged when it has none, and otherwise keeping every non-apostrophe character as often as it occurs. |
| Examples.DownloadNameCode | drug_interactions/adapters/ddinter_adapter.py:99-101 | `ddinter_downloads_code_A.csv` has code "A" and class "Alimentary tract and metabolism". |
| Examples.DownloadUrlCode | drug_interactions/adapters/ddinter_adapter.py:99 | A full download URL ending in `_V.csv` has code "V". |
| Examples.UnknownCodeHasNoClass | drug_interactions/adapters/ddinter_adapter.py:99-125 | A `_Z.csv` file has no class. |
| Examples.NoUnderscoreCode | drug_interactions/adapters/ddinter_adapter.py:99 | Without an underscore the code is everything before the first dot: `A.csv` reads as category A. |
| Examples.UnknownFileFails | drug_interactions/adapters/ddinter_adapter.py:94-125 | A good `_A` file followed by a `_Z` file with a header and no rows makes construction fail with the `_Z` path and code "Z". |
| Examples.ScenarioConstructs | drug_interactions/adapters/ddinter_adapter.py:71-80 | Construction over an `_A` and a `_B` file succeeds. |
| Examples.ScenarioNodeCount | drug_interactions/adapters/ddinter_adapter.py:179-183 | For rows (1 Asp, 2 Ibu) in `_A` and (2 Ibu, 3 Par) in `_B`, the node table is exactly (1, Asp), (2, Ibu), (3, Par) in that order, so drug 2 appears once. The emitted tuples are the three matching "drug" records, and the count is 3. |
| Examples.ScenarioEdges | drug_interactions/adapters/ddinter_adapter.py:164-177 | The same two files give two edges, tagged "Alimentary tract and metabolism" and "Blood and blood forming organs". |
| Examples.ConflictingNamesGiveTwoNodes | drug_interactions/adapters/ddinter_adapter.py:133 | Rows that spell id 1 as "Asp" and as "Aspirin" give two drug nodes with id 1. |
| Examples.ApostropheVariantsGiveSameNode | drug_interactions/adapters/ddinter_adapter.py:133-151 | A row pairing `(1, D')` with `(1, D)` keeps both pairs through deduplication, and both are emitted as the identical tuple `("1", "drug", {name: "D"})`: two nodes, equal to each other. |

## Left out

- Reading the CSV files (`pd.read_csv`, line 96) is I/O. Each file is modelled as its path string plus its already-parsed rows.
- The MD5 digest of `str(row)` (line 166) is a foreign library applied to pandas' text rendering of a row. It is modelled as an arbitrary function parameter of `GetEdges`. The model keeps what that rendering depends on: the row's values, its class and its index label, which is its position in its file.
- Adapter.EdgeIdsDeterministic: states only that equal edge rows get equal identifiers. Nothing is claimed about collisions or distinctness, since that depends on MD5.
- Logging (lines 8, 10, 89, 141, 162) has no effect on results.
- The unused imports `random` and `string` and the bare expression statement `edges` (line 126) have no effect.
- `create_knowledge_graph.py` is a driver script that does downloading, graph writing and printing. It is not part of this model.
- Every file is assumed to carry all five columns `DDInterID_A`, `Drug_A`, `DDInterID_B`, `Drug_B` and `Level`. A file that lacks one raises a KeyError at lines 113-122. That happens before the category lookup at line 125, so it happens even when the code is unknown. This missing-column failure is not modelled.
- pandas values are modelled as strings. Missing values (NaN), numeric column types and non-string names, on which `.replace` would fail, are not modelled.
- The stored field selections (`node_fields`, `edge_fields`) and `edge_types` never influence what `get_nodes` and `get_edges` emit. The model stores them and nothing reads them.
- The generators of `get_nodes` and `get_edges` are modelled as sequences. Their laziness and re-iteration are not modelled.
- A non-empty selection list is stored by reference: `self.node_types = node_types` (line 187) keeps the caller's own list object. `get_nodes` tests it for DRUG only when its generator is first iterated (line 142). A caller that clears the list, or appends DRUG to it, after construction therefore changes what `get_nodes` emits. The model copies the selection into an immutable record at construction and fixes it there, so Registry.DrugNodesActiveUnderSelection describes the output only when the caller leaves the list alone.
