/**
 * The discrete bookkeeping of `data_process`: the marker list, the cell-type
 * ids, the partition of the cells by type, the reference-matrix columns and
 * the output dictionary. The expression values, the per-group mean and the
 * non-negative least-squares fit are left abstract (type and function
 * parameters); what is modelled is that ids, columns and output keys agree.
 */
module CellTypes {
  import opened Collections
  import opened LexOrder
  import opened Loader

  // ---------------------------------------------------------------------------
  // Markers: the first rows of the ranking table, flattened and de-duplicated
  // ---------------------------------------------------------------------------

  /** How many rows `DataFrame.head(n)` keeps of `len` rows; a negative `n` drops the last `-n`. */
  function HeadCount(len: nat, n: int): (c: nat)
    ensures c <= len
  {
    if n >= 0 then (if n < len then n else len)
    else if len + n > 0 then len + n
    else 0
  }

  /** `np.ravel`: the rows laid end to end. */
  function Ravel(rows: seq<seq<string>>): seq<string>
  {
    if rows == [] then [] else Ravel(rows[..|rows| - 1]) + rows[|rows| - 1]
  }

  /** A name is in the flattened table exactly when some cell of the table holds it. */
  lemma {:induction false} RavelMembers(rows: seq<seq<string>>)
    ensures forall g :: g in Ravel(rows) <==>
              exists i, j :: 0 <= i < |rows| && 0 <= j < |rows[i]| && rows[i][j] == g
    decreases |rows|
  {
    if rows != [] {
      var front := rows[..|rows| - 1];
      RavelMembers(front);
      forall g
        ensures g in Ravel(rows) <==>
                exists i, j :: 0 <= i < |rows| && 0 <= j < |rows[i]| && rows[i][j] == g
      {
        if g in Ravel(rows) {
          if g in Ravel(front) {
            var i, j :| 0 <= i < |front| && 0 <= j < |front[i]| && front[i][j] == g;
            assert rows[i][j] == g;
          } else {
            var j :| 0 <= j < |rows[|rows| - 1]| && rows[|rows| - 1][j] == g;
          }
        }
        if exists i, j :: 0 <= i < |rows| && 0 <= j < |rows[i]| && rows[i][j] == g {
          var i, j :| 0 <= i < |rows| && 0 <= j < |rows[i]| && rows[i][j] == g;
          if i < |front| {
            assert front[i][j] == g;
          } else {
            assert g in rows[|rows| - 1];
          }
        }
      }
    }
  }

  lemma {:induction false} RavelLength(rows: seq<seq<string>>, width: nat)
    requires forall i :: 0 <= i < |rows| ==> |rows[i]| == width
    ensures |Ravel(rows)| == |rows| * width
    decreases |rows|
  {
    if rows != [] {
      RavelLength(rows[..|rows| - 1], width);
      assert |rows| * width == (|rows| - 1) * width + width;
    }
  }

  /**
   * The marker list: `np.unique` of the flattened first `topMarkerNum` rows of
   * the ranking table of gene names (one column per cell type).
   */
  function Markers(names: seq<seq<string>>, topMarkerNum: int): (marker: seq<string>)
    ensures StrictlySorted(marker)
    ensures forall g :: g in marker <==>
              exists i, j :: 0 <= i < HeadCount(|names|, topMarkerNum) && 0 <= j < |names[i]| && names[i][j] == g
  {
    var head := names[..HeadCount(|names|, topMarkerNum)];
    RavelMembers(head);
    assert forall i, j :: 0 <= i < |head| && 0 <= j < |head[i]| ==> head[i][j] == names[i][j];
    SortedDistinct(Ravel(head))
  }

  /**
   * The markers are names the ranking table ranks, so genes of the
   * single-cell table when its names are; and with one column per cell type
   * there are at most `topMarkerNum` per type.
   */
  lemma MarkersBound(names: seq<seq<string>>, topMarkerNum: int, types: nat, genes: seq<string>)
    requires forall i :: 0 <= i < |names| ==> |names[i]| == types
    requires forall i, j :: 0 <= i < |names| && 0 <= j < |names[i]| ==> names[i][j] in genes
    ensures forall g :: g in Markers(names, topMarkerNum) ==> g in genes
    ensures topMarkerNum >= 0 ==> |Markers(names, topMarkerNum)| <= topMarkerNum * types
  {
    var c := HeadCount(|names|, topMarkerNum);
    var head := names[..c];
    RavelLength(head, types);
    if topMarkerNum >= 0 {
      assert c <= topMarkerNum;
      assert c * types <= topMarkerNum * types;
    }
  }

  // ---------------------------------------------------------------------------
  // Cell-type ids
  // ---------------------------------------------------------------------------

  /** The `Cell_type` column of the metadata. */
  function CellTypeColumn(meta: seq<MetaRow>): seq<string>
  {
    seq(|meta|, i requires 0 <= i < |meta| => meta[i].cellType)
  }

  /** The elements of `labels` are exactly the labels that occur in the metadata. */
  ghost predicate LabelsOccur(meta: seq<MetaRow>, labels: seq<string>)
  {
    forall l :: l in labels <==> exists i :: 0 <= i < |meta| && meta[i].cellType == l
  }

  /** `id2label`: the distinct cell-type labels, sorted; label `id2label[i]` has id `i`. */
  function IdToLabel(meta: seq<MetaRow>): (id2label: seq<string>)
    ensures StrictlySorted(id2label)
    ensures LabelsOccur(meta, id2label)
  {
    var column := CellTypeColumn(meta);
    assert forall i :: 0 <= i < |meta| ==> column[i] == meta[i].cellType;
    SortedDistinct(column)
  }

  /**
   * `{label: idx for idx, label in enumerate(s)}`: each element of `s` maps to
   * a position holding it (the last one, as a later entry overwrites).
   */
  function LabelToId(s: seq<string>): (m: map<string, nat>)
    ensures forall l :: l in m <==> l in s
    ensures forall l :: l in m ==> m[l] < |s| && s[m[l]] == l
    ensures forall l, j :: l in m && m[l] < j < |s| ==> s[j] != l
  {
    if s == [] then map[]
    else
      var front := s[..|s| - 1];
      var rest := LabelToId(front);
      assert forall l :: l in rest ==> s[rest[l]] == front[rest[l]];
      assert s == front + [s[|s| - 1]];
      rest[s[|s| - 1] := |s| - 1]
  }

  /**
   * `label2id` and `id2label` are inverse to each other, and every row's
   * label has an id.
   */
  ghost predicate IdsInvertLabels(meta: seq<MetaRow>, id2label: seq<string>, label2id: map<string, nat>)
  {
    && (forall i :: 0 <= i < |meta| ==> meta[i].cellType in label2id)
    && (forall i :: 0 <= i < |id2label| ==> id2label[i] in label2id && label2id[id2label[i]] == i)
    && (forall l :: l in label2id ==> label2id[l] < |id2label| && id2label[label2id[l]] == l)
  }

  /**
   * The ids of the metadata's labels: every row's label has an id (the lookup
   * in the row loop never misses), and `label2id` inverts `id2label`.
   */
  lemma LabelIndexing(meta: seq<MetaRow>)
    ensures IdsInvertLabels(meta, IdToLabel(meta), LabelToId(IdToLabel(meta)))
  {
    var id2label := IdToLabel(meta);
    SortedIsDistinct(id2label);
  }

  // ---------------------------------------------------------------------------
  // The row loop: cell2label and label2cell
  // ---------------------------------------------------------------------------

  predicate Labelled(meta: seq<MetaRow>, label2id: map<string, nat>)
  {
    forall i :: 0 <= i < |meta| ==> meta[i].cellType in label2id
  }

  lemma LabelledPrefix(meta: seq<MetaRow>, label2id: map<string, nat>, n: nat)
    requires Labelled(meta, label2id) && n <= |meta|
    ensures Labelled(meta[..n], label2id)
  {
    assert forall i :: 0 <= i < n ==> meta[..n][i] == meta[i];
  }

  /** `cell2label` after the rows of `meta`: each cell name maps to the id of its row's type. */
  function CellToIdOf(meta: seq<MetaRow>, label2id: map<string, nat>): map<string, nat>
    requires Labelled(meta, label2id)
  {
    if meta == [] then map[]
    else
      var row := meta[|meta| - 1];
      LabelledPrefix(meta, label2id, |meta| - 1);
      CellToIdOf(meta[..|meta| - 1], label2id)[row.cell := label2id[row.cellType]]
  }

  /** `label2cell` after the rows of `meta`: each id maps to the set of cell names of that type. */
  function IdToCellsOf(meta: seq<MetaRow>, label2id: map<string, nat>): map<nat, set<string>>
    requires Labelled(meta, label2id)
  {
    if meta == [] then map[]
    else
      var row := meta[|meta| - 1];
      LabelledPrefix(meta, label2id, |meta| - 1);
      var m := IdToCellsOf(meta[..|meta| - 1], label2id);
      var k := label2id[row.cellType];
      m[k := (if k in m then m[k] else {}) + {row.cell}]
  }

  /** The loop over the metadata rows. */
  method PartitionCells(meta: seq<MetaRow>, label2id: map<string, nat>)
    returns (cell2label: map<string, nat>, label2cell: map<nat, set<string>>)
    requires Labelled(meta, label2id)
    ensures cell2label == CellToIdOf(meta, label2id)
    ensures label2cell == IdToCellsOf(meta, label2id)
  {
    cell2label, label2cell := map[], map[];
    for n := 0 to |meta|
      invariant Labelled(meta[..n], label2id)
      invariant cell2label == CellToIdOf(meta[..n], label2id)
      invariant label2cell == IdToCellsOf(meta[..n], label2id)
    {
      var cellName := meta[n].cell;
      var cellType := label2id[meta[n].cellType];
      cell2label := cell2label[cellName := cellType];
      var cells := if cellType in label2cell then label2cell[cellType] else {};
      label2cell := label2cell[cellType := cells + {cellName}];
      assert meta[..n + 1][..n] == meta[..n];
      LabelledPrefix(meta, label2id, n + 1);
    }
    assert meta[..|meta|] == meta;
  }

  /** Every row's cell is in the group of its type's id. */
  ghost predicate RowsGrouped(meta: seq<MetaRow>, label2id: map<string, nat>, label2cell: map<nat, set<string>>)
    requires Labelled(meta, label2id)
  {
    forall i :: 0 <= i < |meta| ==>
      label2id[meta[i].cellType] in label2cell && meta[i].cell in label2cell[label2id[meta[i].cellType]]
  }

  /** Every member of a group comes from a row of that group's id. */
  ghost predicate MembersFromRows(meta: seq<MetaRow>, label2id: map<string, nat>, label2cell: map<nat, set<string>>)
    requires Labelled(meta, label2id)
  {
    forall k, c :: k in label2cell && c in label2cell[k] ==>
      exists i :: 0 <= i < |meta| && meta[i].cell == c && label2id[meta[i].cellType] == k
  }

  /** Every key is the id of some row's type. */
  ghost predicate KeysFromRows(meta: seq<MetaRow>, label2id: map<string, nat>, label2cell: map<nat, set<string>>)
    requires Labelled(meta, label2id)
  {
    forall k :: k in label2cell ==> exists i :: 0 <= i < |meta| && label2id[meta[i].cellType] == k
  }

  /** `label2cell` holds exactly the rows. */
  ghost predicate CoversRows(meta: seq<MetaRow>, label2id: map<string, nat>, label2cell: map<nat, set<string>>)
    requires Labelled(meta, label2id)
  {
    && RowsGrouped(meta, label2id, label2cell)
    && MembersFromRows(meta, label2id, label2cell)
    && KeysFromRows(meta, label2id, label2cell)
  }

  /**
   * `label2cell` holds exactly the rows: every row's cell is in the group of
   * its type's id, every member of a group comes from a row of that id, and
   * the keys are the ids of the types that occur.
   */
  lemma PartitionCovers(meta: seq<MetaRow>, label2id: map<string, nat>)
    requires Labelled(meta, label2id)
    ensures CoversRows(meta, label2id, IdToCellsOf(meta, label2id))
  {
    PartitionGroupsRows(meta, label2id);
    PartitionMembersFromRows(meta, label2id);
    PartitionKeysFromRows(meta, label2id);
  }

  lemma {:induction false} PartitionGroupsRows(meta: seq<MetaRow>, label2id: map<string, nat>)
    requires Labelled(meta, label2id)
    ensures RowsGrouped(meta, label2id, IdToCellsOf(meta, label2id))
    decreases |meta|
  {
    if meta != [] {
      var front := meta[..|meta| - 1];
      LabelledPrefix(meta, label2id, |meta| - 1);
      PartitionGroupsRows(front, label2id);
      var m := IdToCellsOf(front, label2id);
      var k0 := label2id[meta[|meta| - 1].cellType];
      assert IdToCellsOf(meta, label2id) == m[k0 := (if k0 in m then m[k0] else {}) + {meta[|meta| - 1].cell}];
      forall i | 0 <= i < |front|
        ensures label2id[meta[i].cellType] in m && meta[i].cell in m[label2id[meta[i].cellType]]
      {
        assert meta[i] == front[i];
      }
    }
  }

  lemma {:induction false} PartitionMembersFromRows(meta: seq<MetaRow>, label2id: map<string, nat>)
    requires Labelled(meta, label2id)
    ensures MembersFromRows(meta, label2id, IdToCellsOf(meta, label2id))
    decreases |meta|
  {
    if meta != [] {
      var front := meta[..|meta| - 1];
      LabelledPrefix(meta, label2id, |meta| - 1);
      PartitionMembersFromRows(front, label2id);
      var label2cell := IdToCellsOf(meta, label2id);
      var m := IdToCellsOf(front, label2id);
      var k0 := label2id[meta[|meta| - 1].cellType];
      assert label2cell == m[k0 := (if k0 in m then m[k0] else {}) + {meta[|meta| - 1].cell}];
      forall k, c | k in label2cell && c in label2cell[k]
        ensures exists i :: 0 <= i < |meta| && meta[i].cell == c && label2id[meta[i].cellType] == k
      {
        if k == k0 && c == meta[|meta| - 1].cell {
          assert meta[|meta| - 1].cell == c;
        } else {
          assert k in m && c in m[k];
          var i :| 0 <= i < |front| && front[i].cell == c && label2id[front[i].cellType] == k;
          assert meta[i] == front[i];
        }
      }
    }
  }

  lemma {:induction false} PartitionKeysFromRows(meta: seq<MetaRow>, label2id: map<string, nat>)
    requires Labelled(meta, label2id)
    ensures KeysFromRows(meta, label2id, IdToCellsOf(meta, label2id))
    decreases |meta|
  {
    if meta != [] {
      var front := meta[..|meta| - 1];
      LabelledPrefix(meta, label2id, |meta| - 1);
      PartitionKeysFromRows(front, label2id);
      var label2cell := IdToCellsOf(meta, label2id);
      var m := IdToCellsOf(front, label2id);
      var k0 := label2id[meta[|meta| - 1].cellType];
      assert label2cell == m[k0 := (if k0 in m then m[k0] else {}) + {meta[|meta| - 1].cell}];
      forall k | k in label2cell
        ensures exists i :: 0 <= i < |meta| && label2id[meta[i].cellType] == k
      {
        if k != k0 {
          assert k in m;
          var i :| 0 <= i < |front| && label2id[front[i].cellType] == k;
          assert meta[i] == front[i];
        }
      }
    }
  }

  /** With unique cell names, the groups are pairwise disjoint. */
  lemma PartitionDisjoint(meta: seq<MetaRow>, label2id: map<string, nat>)
    requires Labelled(meta, label2id)
    requires forall i, j :: 0 <= i < j < |meta| ==> meta[i].cell != meta[j].cell
    ensures var label2cell := IdToCellsOf(meta, label2id);
            forall k1, k2 :: k1 in label2cell && k2 in label2cell && k1 != k2 ==> label2cell[k1] !! label2cell[k2]
  {
    PartitionCovers(meta, label2id);
  }

  /**
   * `cell2label` holds every cell name, and a name maps to the id of the type
   * on its LAST row: with duplicate names the last row wins, and with unique
   * names every row is its name's last.
   */
  lemma {:induction false} CellToIdLastWins(meta: seq<MetaRow>, label2id: map<string, nat>)
    requires Labelled(meta, label2id)
    ensures var cell2label := CellToIdOf(meta, label2id);
            && (forall c :: c in cell2label <==> exists i :: 0 <= i < |meta| && meta[i].cell == c)
            && (forall i :: 0 <= i < |meta| && (forall j :: i < j < |meta| ==> meta[j].cell != meta[i].cell) ==>
                  cell2label[meta[i].cell] == label2id[meta[i].cellType])
    decreases |meta|
  {
    if meta != [] {
      var front := meta[..|meta| - 1];
      LabelledPrefix(meta, label2id, |meta| - 1);
      CellToIdLastWins(front, label2id);
      assert forall i :: 0 <= i < |front| ==> front[i] == meta[i];
      var cell2label := CellToIdOf(meta, label2id);
      forall c | c in cell2label
        ensures exists i :: 0 <= i < |meta| && meta[i].cell == c
      {
        if c != meta[|meta| - 1].cell {
          var i :| 0 <= i < |front| && front[i].cell == c;
          assert meta[i].cell == c;
        }
      }
    }
  }

  // ---------------------------------------------------------------------------
  // The groups under the sorted ids
  // ---------------------------------------------------------------------------

  /** The names of the cells whose type is `cellType`. */
  function CellsOfType(meta: seq<MetaRow>, cellType: string): set<string>
  {
    set i | 0 <= i < |meta| && meta[i].cellType == cellType :: meta[i].cell
  }

  /** The ids `0 .. n-1`. */
  function Ids(n: nat): (r: set<nat>)
    ensures forall k :: k in r <==> 0 <= k < n
    ensures |r| == n
  {
    if n == 0 then {} else Ids(n - 1) + {n - 1}
  }

  /**
   * `label2cell` is grouped by `id2label`: its keys are exactly the ids
   * `0 .. K-1`, there are `K` of them, and the group with id `k` is the set
   * of cells whose type is `id2label[k]`.
   */
  ghost predicate GroupedBy(meta: seq<MetaRow>, id2label: seq<string>, label2cell: map<nat, set<string>>)
  {
    && (forall k :: k in label2cell <==> 0 <= k < |id2label|)
    && |label2cell.Keys| == |id2label|
    && (forall k :: 0 <= k < |id2label| ==> label2cell[k] == CellsOfType(meta, id2label[k]))
  }

  /**
   * Under the sorted ids, `label2cell` as the row loop leaves it is grouped
   * by `id2label`: the keys are `0 .. K-1` (every label comes from some row)
   * and group `k` holds the cells whose type is `id2label[k]`.
   */
  lemma GroupsByLabel(meta: seq<MetaRow>)
    ensures Labelled(meta, LabelToId(IdToLabel(meta)))
    ensures GroupedBy(meta, IdToLabel(meta), IdToCellsOf(meta, LabelToId(IdToLabel(meta))))
  {
    var id2label := IdToLabel(meta);
    var label2id := LabelToId(id2label);
    LabelIndexing(meta);
    PartitionCovers(meta, label2id);
    GroupsFromIds(meta, id2label, label2id, IdToCellsOf(meta, label2id));
  }

  /** A map whose keys are `0 .. n-1` has `n` keys. */
  lemma KeyCount<T>(m: map<nat, T>, n: nat)
    requires forall k :: k in m <==> 0 <= k < n
    ensures |m.Keys| == n
  {
    assert m.Keys == Ids(n);
  }

  /** `GroupsByLabel` from the facts it rests on: the ids invert the labels, and the partition covers the rows. */
  lemma GroupsFromIds(meta: seq<MetaRow>, id2label: seq<string>, label2id: map<string, nat>,
                      label2cell: map<nat, set<string>>)
    requires LabelsOccur(meta, id2label)
    requires IdsInvertLabels(meta, id2label, label2id)
    requires CoversRows(meta, label2id, label2cell)
    ensures GroupedBy(meta, id2label, label2cell)
  {
    forall k | 0 <= k < |id2label|
      ensures k in label2cell
    {
      assert id2label[k] in id2label;
      var i :| 0 <= i < |meta| && meta[i].cellType == id2label[k];
    }
    forall k | k in label2cell
      ensures k < |id2label|
    {
      var i :| 0 <= i < |meta| && label2id[meta[i].cellType] == k;
    }
    forall k | 0 <= k < |id2label|
      ensures label2cell[k] == CellsOfType(meta, id2label[k])
    {
      GroupContents(meta, id2label, label2id, label2cell, k);
    }
    KeyCount(label2cell, |id2label|);
  }

  /** Group `k` holds the cells whose type is `id2label[k]`. */
  lemma GroupContents(meta: seq<MetaRow>, id2label: seq<string>, label2id: map<string, nat>,
                      label2cell: map<nat, set<string>>, k: nat)
    requires IdsInvertLabels(meta, id2label, label2id)
    requires CoversRows(meta, label2id, label2cell)
    requires k < |id2label| && k in label2cell
    ensures label2cell[k] == CellsOfType(meta, id2label[k])
  {
    forall c | c in label2cell[k]
      ensures c in CellsOfType(meta, id2label[k])
    {
      var i :| 0 <= i < |meta| && meta[i].cell == c && label2id[meta[i].cellType] == k;
      assert meta[i].cellType == id2label[k];
    }
    forall c | c in CellsOfType(meta, id2label[k])
      ensures c in label2cell[k]
    {
      var i :| 0 <= i < |meta| && meta[i].cellType == id2label[k] && meta[i].cell == c;
    }
  }

  // ---------------------------------------------------------------------------
  // Per-group values and the reference-matrix columns
  // ---------------------------------------------------------------------------

  /**
   * The two loops over the groups: `select` picks a group's columns of the
   * marker matrix (`label_devide_data`), `mean` reduces them to one value
   * per marker gene (`single_cell_splitby_breed_np`).
   */
  method SplitByType<M, V>(label2cell: map<nat, set<string>>, marker: seq<string>,
                           select: (seq<string>, set<string>) -> M, mean: M -> V)
    returns (split: map<nat, V>)
    ensures split.Keys == label2cell.Keys
    ensures forall k :: k in split ==> split[k] == mean(select(marker, label2cell[k]))
  {
    var devide: map<nat, M> := map[];
    var todo := label2cell.Keys;
    while todo != {}
      invariant todo <= label2cell.Keys
      invariant devide.Keys == label2cell.Keys - todo
      invariant forall k :: k in devide ==> devide[k] == select(marker, label2cell[k])
      decreases todo
    {
      var k :| k in todo;
      devide := devide[k := select(marker, label2cell[k])];
      todo := todo - {k};
    }
    split := map[];
    todo := devide.Keys;
    while todo != {}
      invariant todo <= devide.Keys
      invariant split.Keys == devide.Keys - todo
      invariant forall k :: k in split ==> split[k] == mean(devide[k])
      decreases todo
    {
      var k :| k in todo;
      split := split[k := mean(devide[k])];
      todo := todo - {k};
    }
  }

  /**
   * `for i in range(max_decade)`: column `i` of the reference matrix is the
   * value of the group with id `i`; the lookup needs every id below the
   * number of groups to be a key.
   */
  method ReferenceColumns<V>(split: map<nat, V>) returns (columns: seq<V>)
    requires forall i :: 0 <= i < |split.Keys| ==> i in split
    ensures |columns| == |split.Keys|
    ensures forall i :: 0 <= i < |columns| ==> columns[i] == split[i]
  {
    var maxDecade := |split.Keys|;
    columns := [];
    for i := 0 to maxDecade
      invariant |columns| == i
      invariant forall j :: 0 <= j < i ==> columns[j] == split[j]
    {
      columns := columns + [split[i]];
    }
  }

  // ---------------------------------------------------------------------------
  // The output dictionary: dict(zip(id2label, ratio_list))
  // ---------------------------------------------------------------------------

  /** `cell_target_num`: the labels, in id order, paired with the estimated counts. */
  function TargetCounts<W>(id2label: seq<string>, counts: seq<W>): (d: seq<(string, W)>)
    ensures Distinct(KeysOf(d))
    ensures forall l :: l in KeysOf(d) ==> l in id2label
  {
    var z := Zip(id2label, counts);
    assert forall l :: l in KeysOf(z) ==> l in id2label by {
      forall l | l in KeysOf(z)
        ensures l in id2label
      {
        var i :| 0 <= i < |z| && KeysOf(z)[i] == l;
      }
    }
    DictOf(z)
  }

  /**
   * With distinct labels, the output has one entry per label (as many as the
   * estimate provides), in id order, and the entry at position `i` pairs
   * `id2label[i]` with the estimate for column `i`.
   */
  lemma TargetCountsPairing<W>(id2label: seq<string>, counts: seq<W>)
    requires Distinct(id2label)
    ensures var d := TargetCounts(id2label, counts);
            && |d| == (if |counts| < |id2label| then |counts| else |id2label|)
            && forall i :: 0 <= i < |d| ==> d[i] == (id2label[i], counts[i])
  {
    var z := Zip(id2label, counts);
    assert KeysOf(z) == id2label[..|z|];
    DictOfDistinct(z);
  }

  // ---------------------------------------------------------------------------
  // data_process
  // ---------------------------------------------------------------------------

  /**
   * The reference matrix by columns (its `(gene_num, label_num)` layout):
   * column `i` is the value of the cells whose type is the `i`-th label in
   * sorted order, the label that `dict(zip(id2label, ...))` pairs with it.
   */
  function GroupColumns<M, V>(meta: seq<MetaRow>, marker: seq<string>,
                              select: (seq<string>, set<string>) -> M, mean: M -> V): seq<V>
  {
    var id2label := IdToLabel(meta);
    seq(|id2label|, i requires 0 <= i < |id2label| => mean(select(marker, CellsOfType(meta, id2label[i]))))
  }

  /**
   * The columns as the two group loops and the column loop produce them are
   * the columns by sorted label.
   */
  lemma ColumnsByLabel<M, V>(meta: seq<MetaRow>, id2label: seq<string>, label2cell: map<nat, set<string>>,
                             marker: seq<string>, select: (seq<string>, set<string>) -> M, mean: M -> V,
                             split: map<nat, V>, columns: seq<V>)
    requires id2label == IdToLabel(meta)
    requires GroupedBy(meta, id2label, label2cell)
    requires split.Keys == label2cell.Keys
    requires forall k :: k in split ==> split[k] == mean(select(marker, label2cell[k]))
    requires |columns| == |split.Keys|
    requires forall i :: 0 <= i < |columns| ==> columns[i] == split[i]
    ensures columns == GroupColumns(meta, marker, select, mean)
  {
    forall i | 0 <= i < |columns|
      ensures columns[i] == mean(select(marker, CellsOfType(meta, id2label[i])))
    {
      assert i in label2cell;
    }
  }

  /**
   * `data_process`, from the ranking table onwards. `select(marker, cells)`
   * is the marker-gene matrix restricted to `cells`, `mean` its per-gene
   * mean, and `estimate(columns, cellCount)` the fit, normalisation, scaling
   * and rounding that turn the reference columns into one count per column.
   * Column `i` is the group of the `i`-th label in sorted order, and the
   * output pairs that label with the estimate for column `i`.
   */
  method DataProcess<M, V, W>(meta: seq<MetaRow>, rankNames: seq<seq<string>>, topMarkerNum: int,
                              select: (seq<string>, set<string>) -> M, mean: M -> V,
                              estimate: (seq<V>, nat) -> seq<W>)
    returns (cellTargetNum: seq<(string, W)>)
    ensures var id2label := IdToLabel(meta);
            var counts := estimate(GroupColumns(meta, Markers(rankNames, topMarkerNum), select, mean), |meta|);
            && |cellTargetNum| == (if |counts| < |id2label| then |counts| else |id2label|)
            && forall i :: 0 <= i < |cellTargetNum| ==> cellTargetNum[i] == (id2label[i], counts[i])
  {
    var marker := Markers(rankNames, topMarkerNum);
    var id2label := IdToLabel(meta);
    var label2id := LabelToId(id2label);
    LabelIndexing(meta);
    var cell2label, label2cell := PartitionCells(meta, label2id);
    GroupsByLabel(meta);
    assert GroupedBy(meta, id2label, label2cell);
    var split := SplitByType(label2cell, marker, select, mean);
    var columns := ReferenceColumns(split);
    ColumnsByLabel(meta, id2label, label2cell, marker, select, mean, split, columns);
    var counts := estimate(columns, |meta|);
    cellTargetNum := TargetCounts(id2label, counts);
    SortedIsDistinct(id2label);
    TargetCountsPairing(id2label, counts);
  }
}
