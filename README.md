# bulk2single data preparation: gene alignment and cell-type bookkeeping

This project models the discrete core of `Pyomic/bulk2single/_utils.py`, the
utility that prepares paired bulk and single-cell expression data for
deconvolution and turns a fitted mixture into target cell counts per cell
type. Two pieces are modelled and proved:

- **Gene alignment** (`bulk2single_data_prepare` and `load_data`). Both entry
  points keep the single-cell genes that also occur in the bulk gene list, in
  single-cell order, and restrict both expression tables to that list. The
  loop is `Loader.IntersectGenes`. It is proved equal to the reference filter
  `Loader.SharedGenes`, and lemmas state what that filter keeps. Restricting a
  table (`DataFrame.loc[list]`) is `Loader.Loc`, with the KeyError case as
  `None`.
- **Cell-type indexing and grouping** (`data_process`). This covers the
  de-duplicated marker list, the sorted `id2label` and its inverse `label2id`,
  the row loop that fills `cell2label` and `label2cell`, the loops that build
  one value per group and one reference column per id, and the output
  dictionary `dict(zip(id2label, ...))`. `CellTypes.DataProcess` composes them.
  Its contract ties the reference matrix (laid out `(gene_num, label_num)` at
  line 237) to the output dictionary built at line 249: column `i` is the
  group of the `i`-th label in sorted order, and the output pairs that label
  with the estimate for column `i`.

Modules:

- `Collections` models duplicate-free lists, Python's `zip` and `dict` as an
  insertion-ordered list of pairs.
- `LexOrder` models Python's order on `str` and the sorted, duplicate-free
  list of a collection. `np.unique` (line 201) and `sorted(list(set(...)))`
  (lines 209-210) both compute that list, so both use `SortedDistinct`.
- `Loader` models the gene intersection, table restriction and the two entry
  points.
- `CellTypes` models `data_process`.

Expression values, the group mean, the ranking table and the fit are type
and function parameters. The model says nothing about their numbers. It
says how ids, groups, columns and output keys line up.

The model follows what the code does, including where it does less than
one might expect:

- The code raises no error for an empty gene intersection, an empty marker
  list (`top_marker_num` of 0) or a zero weight sum. The model has no error
  for these. `Loader.SharedGenesDisjoint` shows that disjoint gene lists give
  an empty intersection.
- The intersection keeps the duplicates of single-cell genes that the bulk
  list holds (`Loader.SharedGenesCount`). It is duplicate-free when the
  single-cell gene list is (`Loader.SharedGenesDistinct`).
- Markers are de-duplicated by `np.unique`, which also sorts them. Which
  genes become markers does depend on how the ranking table orders ties:
  `head(top_marker_num)` keeps whichever tied gene is ranked first. Only the
  order of the final list is independent of the ranking order.
- `DataFrame.head(n)` with a negative `n` keeps all rows but the last `-n`.
  `CellTypes.HeadCount` models that.

## Model

| member | source | states |
|---|---|---|
| `Loader.IntersectGenes` | Pyomic/bulk2single/_utils.py:40-45 | The append loop returns exactly the reference filter `SharedGenes` of the single-cell genes by bulk membership. |
| `Loader.SharedGenesMembers` | Pyomic/bulk2single/_utils.py:42-44 | A gene is in the intersection if and only if it is in both gene lists. |
| `Loader.SharedGenesCount` | Pyomic/bulk2single/_utils.py:41-44 | A gene occurs in the intersection as often as in the single-cell list when the bulk list has it, and never otherwise, so duplicates are kept. |
| `Loader.SharedGenesOrdered` | Pyomic/bulk2single/_utils.py:42-44 | The intersection is a subsequence of the single-cell gene list, so it keeps single-cell order. |
| `Loader.SharedGenesLength` | Pyomic/bulk2single/_utils.py:41-44 | The intersection is no longer than the single-cell list. It is equally long exactly when every single-cell gene is in the bulk list, and then it equals that list. |
| `Loader.SharedGenesDisjoint` | Pyomic/bulk2single/_utils.py:41-45 | Gene lists with no common element give the empty intersection, with no error. |
| `Loader.SharedGenesDistinct` | Pyomic/bulk2single/_utils.py:37-45 | A duplicate-free single-cell gene list gives a duplicate-free intersection. |
| `Loader.Genes` | Pyomic/bulk2single/_utils.py:37-38 | `_stat_axis.values.tolist()` (here and at lines 171 and 174): the index labels of a table, in row order. It has no contract of its own; what it means for the restricted tables is stated by `LocAligned` and `Align`. |
| `Loader.RowsLabelled` | Pyomic/bulk2single/_utils.py:47 | The rows `.loc` selects for one key, also when labels repeat: every selected row carries the key, there are as many as the key occurs among the labels, and they are a subsequence of the table. So they are exactly the table's rows with that label, each once, in table order. |
| `Loader.Loc` | Pyomic/bulk2single/_utils.py:47 | Restricting a table to a key list fails (KeyError) exactly when some key labels no row. |
| `Loader.RowsLabelledUnique` | Pyomic/bulk2single/_utils.py:47 | In a table with unique labels, a present label selects exactly one row, and that row carries the label. |
| `Loader.LocAligned` | Pyomic/bulk2single/_utils.py:46-47 | Restricting a uniquely labelled table to keys it holds succeeds, gives one row per key in key order, and every row comes from the table. |
| `Loader.Align` | Pyomic/bulk2single/_utils.py:40-47 | Intersects the gene lists and restricts both tables without a KeyError. With unique gene labels, both restricted tables are labelled exactly by the intersection, in the same order. |
| `Loader.LoadData` | Pyomic/bulk2single/_utils.py:159-190 | `load_data` returns the metadata unchanged, both gene lists, their intersection, and both tables restricted to it, aligned row for row when gene labels are unique. |
| `Loader.PrepareFromAnnotated` | Pyomic/bulk2single/_utils.py:11-49 | `bulk2single_data_prepare` builds one metadata row (cell name, cell type) per cell, in order. The rest of its result is the same as `load_data`'s. |
| `LexOrder.Less` | Pyomic/bulk2single/_utils.py:201-210 | Python's `<` on `str`, used by `np.unique` and `sorted`. Its meaning is stated by `LessIsLexicographic`, and that it is a strict total order by `LessIrreflexive`, `LessTransitive` and `LessTotal`. |
| `LexOrder.LessIsLexicographic` | Pyomic/bulk2single/_utils.py:201-210 | `a < b` exactly when `a` is a proper prefix of `b`, or the two agree up to a position where `a` has the smaller character. |
| `LexOrder.LessIrreflexive` | Pyomic/bulk2single/_utils.py:210 | No string is less than itself. |
| `LexOrder.LessTransitive` | Pyomic/bulk2single/_utils.py:210 | The order on strings is transitive. |
| `LexOrder.LessTotal` | Pyomic/bulk2single/_utils.py:210 | Any two different strings are ordered one way or the other, so sorting a set of labels has one outcome. |
| `LexOrder.SortedDistinct` | Pyomic/bulk2single/_utils.py:209-210 | The result is strictly sorted and holds exactly the elements of its input. |
| `LexOrder.SortedDistinctCanonical` | Pyomic/bulk2single/_utils.py:199-201 | Any strictly sorted list with the same elements as the input equals `SortedDistinct` of it. So the result is duplicate-free, and applying it again changes nothing. |
| `LexOrder.SortedUnique` | Pyomic/bulk2single/_utils.py:201 | Two strictly sorted lists with the same elements are equal. |
| `CellTypes.HeadCount` | Pyomic/bulk2single/_utils.py:198 | How many rows `head(n)` keeps: never more than the table has. Which names those rows contribute, negative `n` included, is stated by `Markers`. |
| `CellTypes.Ravel` | Pyomic/bulk2single/_utils.py:200 | `np.ravel` lays the rows end to end. Its meaning is stated by `RavelMembers` and `RavelLength`. |
| `CellTypes.RavelMembers` | Pyomic/bulk2single/_utils.py:199-200 | A name is in the flattened table exactly when some cell of the table holds it. |
| `CellTypes.RavelLength` | Pyomic/bulk2single/_utils.py:200 | Flattening rows of equal width `w` gives rows times `w` names. |
| `CellTypes.Markers` | Pyomic/bulk2single/_utils.py:198-202 | The marker list is strictly sorted. Its elements are exactly the names in the first `top_marker_num` rows of the ranking table (pandas `head` semantics). |
| `CellTypes.MarkersBound` | Pyomic/bulk2single/_utils.py:197-204 | If the ranked names are genes of the single-cell table, every marker is one, so the `.loc[marker]` lookups can find them. With one column per cell type there are at most `top_marker_num` times the number of types. |
| `CellTypes.CellTypeColumn` | Pyomic/bulk2single/_utils.py:207-208 | The `Cell_type` column of the metadata. It has no contract of its own; `IdToLabel` states that its sorted distinct values are exactly the labels that occur. |
| `CellTypes.IdToLabel` | Pyomic/bulk2single/_utils.py:207-210 | `id2label` is strictly sorted and holds exactly the labels that occur in the metadata. |
| `CellTypes.LabelToId` | Pyomic/bulk2single/_utils.py:211 | The map's keys are the list's elements. Each key maps to a position that holds it, and no later position holds it (a later entry overwrites). |
| `CellTypes.LabelIndexing` | Pyomic/bulk2single/_utils.py:209-217 | Every row's label has an id, so the lookup at line 217 never misses. `label2id[id2label[i]] == i` for every `i < K`, and `id2label[label2id[l]] == l` for every key `l`. |
| `CellTypes.PartitionCells` | Pyomic/bulk2single/_utils.py:213-219 | The row loop leaves `cell2label` and `label2cell` equal to the row-by-row definitions `CellToIdOf` and `IdToCellsOf`. |
| `CellTypes.PartitionCovers` | Pyomic/bulk2single/_utils.py:213-219 | Every row's cell is in the group of its type's id. Every group member comes from a row of that id, so the union of the groups is the set of cell names. The keys are the ids of the types that occur. |
| `CellTypes.PartitionGroupsRows` | Pyomic/bulk2single/_utils.py:213-219 | After the row loop, every row's cell is in the group of its type's id. |
| `CellTypes.PartitionMembersFromRows` | Pyomic/bulk2single/_utils.py:213-219 | After the row loop, every member of a group comes from a row whose type has that group's id. |
| `CellTypes.PartitionKeysFromRows` | Pyomic/bulk2single/_utils.py:213-219 | After the row loop, every key of `label2cell` is the id of some row's type. |
| `CellTypes.PartitionDisjoint` | Pyomic/bulk2single/_utils.py:213-219 | With unique cell names, the groups are pairwise disjoint. |
| `CellTypes.CellToIdLastWins` | Pyomic/bulk2single/_utils.py:213-218 | `cell2label` holds every cell name. A name maps to the id of the type on its last row: with duplicate names the last row wins, and with unique names each row's own id. |
| `CellTypes.Ids` | Pyomic/bulk2single/_utils.py:233 | `range(K)` as a set has exactly the members `0 .. K-1` and size `K`. |
| `CellTypes.GroupsByLabel` | Pyomic/bulk2single/_utils.py:213-234 | Under the sorted ids, the keys of `label2cell` are exactly `0 .. K-1`, there are `K` of them, and group `k` is the set of cells whose type is `id2label[k]`. |
| `CellTypes.GroupsFromIds` | Pyomic/bulk2single/_utils.py:207-223 | If `label2id` inverts `id2label` and the partition covers the rows, then the group keys are `0 .. K-1`, there are `K` of them, and group `k` holds the cells of label `id2label[k]`. |
| `CellTypes.GroupContents` | Pyomic/bulk2single/_utils.py:213-223 | Under inverse ids and a covering partition, group `k` is exactly the set of cells whose type is `id2label[k]`. |
| `CellTypes.SplitByType` | Pyomic/bulk2single/_utils.py:221-228 | The two loops over the groups give a map with the same keys as `label2cell`. Key `k` holds the mean of group `k`'s selected columns. |
| `CellTypes.ReferenceColumns` | Pyomic/bulk2single/_utils.py:230-234 | When every id below the number of groups is a key, the columns number `max_decade` and column `i` is the value of group `i`. |
| `CellTypes.ColumnsByLabel` | Pyomic/bulk2single/_utils.py:221-234 | When the groups are keyed by the sorted ids, the columns that the group loops and the column loop produce are the columns by label: column `i` is the mean of the selected marker values of the cells whose type is `id2label[i]`. |
| `Collections.Zip` | Pyomic/bulk2single/_utils.py:249 | Python's `zip`, up to the shorter list. It has no contract of its own; its truncation and pairing inside the output dictionary are stated by `TargetCountsPairing`. |
| `Collections.DictSet` | Pyomic/bulk2single/_utils.py:249 | Setting a key leaves the keys of the dictionary plus that key, holds the new pair, and keeps the keys unique. |
| `Collections.DictOf` | Pyomic/bulk2single/_utils.py:249 | `dict(pairs)` has exactly the keys of the pairs, each once. |
| `Collections.DictSetNew` | Pyomic/bulk2single/_utils.py:249 | Setting a key the dictionary does not hold appends it last. |
| `Collections.DictOfDistinct` | Pyomic/bulk2single/_utils.py:249 | `dict(pairs)` with no key twice keeps every pair, in order. |
| `CellTypes.TargetCounts` | Pyomic/bulk2single/_utils.py:249 | `cell_target_num` has unique keys, and every key is a label of `id2label`. |
| `CellTypes.TargetCountsPairing` | Pyomic/bulk2single/_utils.py:249 | With distinct labels, `dict(zip(id2label, ratio_list))` has one entry per label (up to the number of estimates), in id order. Entry `i` pairs `id2label[i]` with estimate `i`. |
| `CellTypes.DataProcess` | Pyomic/bulk2single/_utils.py:193-251 | The output lists the sorted labels in order. Label `i` is paired with the `i`-th estimate computed from the reference columns, and column `i` is the mean of the cells whose type is label `i`. |

## Left out

- Reading CSV files, building the annotated single-cell object, the
  transposes and `print` (lines 29, 46, 165-173, 188, 195-196) are I/O
  and library plumbing. The tables arrive as sequences of labelled rows, and
  the annotated object arrives as its cell names, its cell-type column and
  its expression matrix by gene.
- `scanpy.tl.rank_genes_groups` (line 197) is a foreign Wilcoxon ranking. Its
  table of gene names is an uninterpreted input.
- The single-cell marker restriction `.loc[marker, :]` (line 203), the
  column selection `sc_marker[list(cells)]` (line 223) and the `.mean`
  (line 228) are the `select` and `mean` parameters: `select(marker, cells)`
  restricts the single-cell table. The order of `list(cells)` is therefore not
  modelled; a group is its set of cells.
- The bulk marker vector `.loc[marker]` (lines 204, 239-240), NNLS, the
  normalisation `ratio / sum(ratio)`, the scaling by the number of metadata
  rows and `ratio_num`, and `np.round` (lines 242-247) are floating point.
  They form the `estimate` parameter. It receives the reference columns and
  the number of metadata rows, and it closes over the bulk marker vector and
  `ratio_num`, which reach the fit only through it. Non-negativity, summing
  to 1 and monotonicity in `ratio_num` are not stated.
- `np.transpose` (line 237) only changes layout. The reference matrix is
  represented by its list of columns.
- Both plotting functions, `bulk2single_plot_cellprop` and
  `bulk2single_plot_correlation` (lines 51-155), are presentation and float
  statistics.
- `CellTypes.SplitByType`: the column selection `sc_marker[list(cells)]`
  (line 223) is assumed to succeed, that is, every metadata cell name is a
  column of the single-cell expression table. The code raises KeyError when
  one is not; `select` is total and the model returns a result instead.
  Likewise the marker lookups at lines 203-204 are assumed to find every
  marker (`CellTypes.MarkersBound` shows this for the single-cell table when
  the ranked names are its genes).
- `CellTypes.DataProcess`: its contract is conditional on the abstract
  `estimate`. The output has one entry per label only when the estimate
  returns one value per column. That is what NNLS returns, but it is not
  modelled.
- `Loader.PrepareFromAnnotated`: selecting genes by name on the annotated
  object (line 46) needs unique variable names; with a repeated name the
  code fails there, while the model selects rows as pandas `.loc` does and
  returns a result. The requirement that the cell-type column has one entry per
  cell is an invariant of the annotated object.
