/**
 * Loading and aligning the bulk and single-cell expression tables: the two
 * entry points `bulk2single_data_prepare` (from an annotated single-cell
 * object) and `load_data` (from three tables already read from CSV). Both
 * keep the single-cell genes that the bulk table also has, in single-cell
 * order, and restrict both tables to those genes.
 */
module Loader {
  import opened Collections

  datatype Option<T> = None | Some(value: T)

  /** One row of an expression table: its index label (a gene) and its values. */
  datatype Row<V> = Row(gene: string, values: V)

  /** One row of the cell metadata: the `Cell` and `Cell_type` columns. */
  datatype MetaRow = MetaRow(cell: string, cellType: string)

  /** The dictionary both entry points return, with its six entries. */
  datatype InputData<V, B> = InputData(
    scMeta: seq<MetaRow>,
    scGene: seq<string>,
    bulkGene: seq<string>,
    intersectGene: seq<string>,
    scData: seq<Row<V>>,
    bulk: seq<Row<B>>)

  // ---------------------------------------------------------------------------
  // The gene intersection
  // ---------------------------------------------------------------------------

  /** Reference definition: the genes of `sc` that occur in `bulk`, in the order of `sc`. */
  function SharedGenes(sc: seq<string>, bulk: seq<string>): seq<string>
  {
    if sc == [] then []
    else SharedGenes(sc[..|sc| - 1], bulk) + (if sc[|sc| - 1] in bulk then [sc[|sc| - 1]] else [])
  }

  /** The loop of both entry points: append each single-cell gene that the bulk list holds. */
  method IntersectGenes(scGenes: seq<string>, bulkGenes: seq<string>) returns (intersection: seq<string>)
    ensures intersection == SharedGenes(scGenes, bulkGenes)
  {
    intersection := [];
    for k := 0 to |scGenes|
      invariant intersection == SharedGenes(scGenes[..k], bulkGenes)
    {
      var g := scGenes[k];
      if g in bulkGenes {
        intersection := intersection + [g];
      }
      assert scGenes[..k + 1][..k] == scGenes[..k];
    }
    assert scGenes[..|scGenes|] == scGenes;
  }

  /** A gene is kept exactly when it is in both lists. */
  lemma {:induction false} SharedGenesMembers(sc: seq<string>, bulk: seq<string>)
    ensures forall g :: g in SharedGenes(sc, bulk) <==> g in sc && g in bulk
    decreases |sc|
  {
    if sc != [] {
      SharedGenesMembers(sc[..|sc| - 1], bulk);
      assert sc == sc[..|sc| - 1] + [sc[|sc| - 1]];
    }
  }

  /**
   * Duplicates are kept: a gene occurs in the intersection as often as in the
   * single-cell list when the bulk list has it, and never otherwise.
   */
  lemma {:induction false} SharedGenesCount(sc: seq<string>, bulk: seq<string>)
    ensures forall g :: multiset(SharedGenes(sc, bulk))[g] == if g in bulk then multiset(sc)[g] else 0
    decreases |sc|
  {
    if sc != [] {
      SharedGenesCount(sc[..|sc| - 1], bulk);
      assert sc == sc[..|sc| - 1] + [sc[|sc| - 1]];
    }
  }

  /** `a` is `b` with some elements left out, the rest in the same order. */
  predicate IsSubsequence<T(==)>(a: seq<T>, b: seq<T>)
    decreases |b|
  {
    if a == [] then true
    else if b == [] then false
    else if a[|a| - 1] == b[|b| - 1] then IsSubsequence(a[..|a| - 1], b[..|b| - 1])
    else IsSubsequence(a, b[..|b| - 1])
  }

  /** The intersection keeps the single-cell order: it embeds into the single-cell list. */
  lemma {:induction false} SharedGenesOrdered(sc: seq<string>, bulk: seq<string>)
    ensures IsSubsequence(SharedGenes(sc, bulk), sc)
    decreases |sc|
  {
    if sc != [] {
      var front := sc[..|sc| - 1];
      var x := sc[|sc| - 1];
      SharedGenesOrdered(front, bulk);
      assert front + [x] == sc;
      if x in bulk {
        var r := SharedGenes(sc, bulk);
        assert r[..|r| - 1] == SharedGenes(front, bulk);
      } else {
        // The dropped gene cannot be the last one kept.
        SharedGenesMembers(front, bulk);
        var r := SharedGenes(front, bulk);
        assert SharedGenes(sc, bulk) == r;
        assert sc[..|sc| - 1] == front;
        if r != [] {
          assert r[|r| - 1] in r;
        }
      }
    }
  }

  /** The intersection is never longer than the single-cell list; equally long exactly when nothing is dropped. */
  lemma {:induction false} SharedGenesLength(sc: seq<string>, bulk: seq<string>)
    ensures |SharedGenes(sc, bulk)| <= |sc|
    ensures |SharedGenes(sc, bulk)| == |sc| <==> forall g :: g in sc ==> g in bulk
    ensures (forall g :: g in sc ==> g in bulk) ==> SharedGenes(sc, bulk) == sc
    decreases |sc|
  {
    if sc != [] {
      var front := sc[..|sc| - 1];
      SharedGenesLength(front, bulk);
      assert sc == front + [sc[|sc| - 1]];
    }
  }

  /** Gene lists with nothing in common give an empty intersection, and no error. */
  lemma SharedGenesDisjoint(sc: seq<string>, bulk: seq<string>)
    requires forall g :: g in sc ==> g !in bulk
    ensures SharedGenes(sc, bulk) == []
  {
    SharedGenesMembers(sc, bulk);
    if SharedGenes(sc, bulk) != [] {
      assert SharedGenes(sc, bulk)[0] in SharedGenes(sc, bulk);
    }
  }

  /** A duplicate-free single-cell gene list gives a duplicate-free intersection. */
  lemma SharedGenesDistinct(sc: seq<string>, bulk: seq<string>)
    requires Distinct(sc)
    ensures Distinct(SharedGenes(sc, bulk))
  {
    var r := SharedGenes(sc, bulk);
    SharedGenesCount(sc, bulk);
    DistinctCount(sc);
    forall i, j | 0 <= i < j < |r|
      ensures r[i] != r[j]
    {
      if r[i] == r[j] {
        TwoOccurrences(r, i, j);
      }
    }
  }

  lemma {:induction false} DistinctCount(s: seq<string>)
    requires Distinct(s)
    ensures forall g :: multiset(s)[g] <= 1
    decreases |s|
  {
    if s != [] {
      var front := s[..|s| - 1];
      assert Distinct(front);
      DistinctCount(front);
      assert s == front + [s[|s| - 1]];
      assert s[|s| - 1] !in front;
    }
  }

  lemma TwoOccurrences(s: seq<string>, i: int, j: int)
    requires 0 <= i < j < |s| && s[i] == s[j]
    ensures multiset(s)[s[i]] >= 2
  {
    assert s == s[..i] + [s[i]] + s[i + 1..j] + [s[j]] + s[j + 1..];
  }

  // ---------------------------------------------------------------------------
  // Restricting a table to a gene list
  // ---------------------------------------------------------------------------

  /** The index labels of a table, top to bottom. */
  function Genes<V>(t: seq<Row<V>>): seq<string>
  {
    seq(|t|, i requires 0 <= i < |t| => t[i].gene)
  }

  /** The rows of `t` labelled `g`, in table order. */
  function RowsLabelled<V>(t: seq<Row<V>>, g: string): (rows: seq<Row<V>>)
    ensures forall r :: r in rows ==> r in t && r.gene == g
    ensures |rows| == multiset(Genes(t))[g]
    ensures IsSubsequence(rows, t)
  {
    if t == [] then []
    else
      var front := t[..|t| - 1];
      var last := t[|t| - 1];
      assert Genes(t) == Genes(front) + [last.gene];
      var prev := RowsLabelled(front, g);
      if last.gene == g then
        assert (prev + [last])[..|prev|] == prev;
        prev + [last]
      else
        assert prev != [] ==> prev[|prev| - 1] in prev;
        prev
  }

  /**
   * `t.loc[keys]`: for each key in turn, every row labelled with it. A key
   * that labels no row is a KeyError, here `None`.
   */
  function Loc<V>(t: seq<Row<V>>, keys: seq<string>): (r: Option<seq<Row<V>>>)
    ensures r.Some? <==> forall k :: k in keys ==> k in Genes(t)
  {
    if keys == [] then Some([])
    else
      var front := Loc(t, keys[..|keys| - 1]);
      var k := keys[|keys| - 1];
      assert keys == keys[..|keys| - 1] + [k];
      if front.Some? && k in Genes(t) then Some(front.value + RowsLabelled(t, k)) else None
  }

  /** With unique labels, each present label selects exactly its one row. */
  lemma {:induction false} RowsLabelledUnique<V>(t: seq<Row<V>>, g: string)
    requires Distinct(Genes(t))
    requires g in Genes(t)
    ensures |RowsLabelled(t, g)| == 1
    ensures RowsLabelled(t, g)[0] in t && RowsLabelled(t, g)[0].gene == g
    decreases |t|
  {
    var front := t[..|t| - 1];
    assert Genes(front) == Genes(t)[..|t| - 1];
    if t[|t| - 1].gene == g {
      forall i | 0 <= i < |front|
        ensures Genes(front)[i] != g
      {
        assert Genes(t)[i] != Genes(t)[|t| - 1];
      }
      RowsLabelledNone(front, g);
    } else {
      var i :| 0 <= i < |t| && Genes(t)[i] == g;
      assert g in Genes(front) by {
        assert Genes(front)[i] == g;
      }
      RowsLabelledUnique(front, g);
    }
  }

  lemma {:induction false} RowsLabelledNone<V>(t: seq<Row<V>>, g: string)
    requires g !in Genes(t)
    ensures RowsLabelled(t, g) == []
    decreases |t|
  {
    if t != [] {
      var front := t[..|t| - 1];
      assert Genes(front) == Genes(t)[..|t| - 1];
      assert Genes(t)[|t| - 1] == t[|t| - 1].gene;
      RowsLabelledNone(front, g);
    }
  }

  /**
   * Restricting a table with unique labels to keys it holds yields one row per
   * key, in the order of the keys, each the table's row for that key.
   */
  lemma {:induction false} LocAligned<V>(t: seq<Row<V>>, keys: seq<string>)
    requires Distinct(Genes(t))
    requires forall k :: k in keys ==> k in Genes(t)
    ensures Loc(t, keys).Some?
    ensures Genes(Loc(t, keys).value) == keys
    ensures forall r :: r in Loc(t, keys).value ==> r in t
    decreases |keys|
  {
    if keys != [] {
      var k := keys[|keys| - 1];
      var front := keys[..|keys| - 1];
      assert keys == front + [k];
      LocAligned(t, front);
      RowsLabelledUnique(t, k);
      var prev := Loc(t, front).value;
      var rows := RowsLabelled(t, k);
      assert Loc(t, keys).value == prev + rows;
      assert rows == [rows[0]];
      GenesAppend(prev, rows);
    }
  }

  lemma GenesAppend<V>(a: seq<Row<V>>, b: seq<Row<V>>)
    ensures Genes(a + b) == Genes(a) + Genes(b)
  {
  }

  // ---------------------------------------------------------------------------
  // The two entry points
  // ---------------------------------------------------------------------------

  /**
   * The common tail of both entry points: intersect the gene lists and
   * restrict both tables to the intersection. No restriction can miss a key.
   */
  method Align<V, B>(scTable: seq<Row<V>>, bulkTable: seq<Row<B>>)
    returns (intersect: seq<string>, scData: seq<Row<V>>, bulk: seq<Row<B>>)
    ensures intersect == SharedGenes(Genes(scTable), Genes(bulkTable))
    ensures Loc(scTable, intersect) == Some(scData)
    ensures Loc(bulkTable, intersect) == Some(bulk)
    ensures Distinct(Genes(scTable)) && Distinct(Genes(bulkTable)) ==>
              Genes(scData) == intersect && Genes(bulk) == intersect
  {
    intersect := IntersectGenes(Genes(scTable), Genes(bulkTable));
    SharedGenesMembers(Genes(scTable), Genes(bulkTable));
    scData := Loc(scTable, intersect).value;
    bulk := Loc(bulkTable, intersect).value;
    if Distinct(Genes(scTable)) && Distinct(Genes(bulkTable)) {
      LocAligned(scTable, intersect);
      LocAligned(bulkTable, intersect);
    }
  }

  /**
   * `load_data`: the metadata, single-cell and bulk tables as read from
   * their CSV files (genes as row labels).
   */
  method LoadData<V, B>(meta: seq<MetaRow>, scTable: seq<Row<V>>, bulkTable: seq<Row<B>>)
    returns (data: InputData<V, B>)
    ensures data.scMeta == meta
    ensures data.scGene == Genes(scTable) && data.bulkGene == Genes(bulkTable)
    ensures data.intersectGene == SharedGenes(data.scGene, data.bulkGene)
    ensures Loc(scTable, data.intersectGene) == Some(data.scData)
    ensures Loc(bulkTable, data.intersectGene) == Some(data.bulk)
    ensures Distinct(data.scGene) && Distinct(data.bulkGene) ==>
              Genes(data.scData) == data.intersectGene && Genes(data.bulk) == data.intersectGene
  {
    var intersect, scData, bulk := Align(scTable, bulkTable);
    data := InputData(meta, Genes(scTable), Genes(bulkTable), intersect, scData, bulk);
  }

  /**
   * `bulk2single_data_prepare`: the single-cell side is an annotated object
   * given by its cell names, the values of its cell-type column (one per
   * cell), and its expression matrix by gene.
   */
  method PrepareFromAnnotated<V, B>(bulkTable: seq<Row<B>>, cellNames: seq<string>,
                                    cellTypes: seq<string>, byGene: seq<Row<V>>)
    returns (data: InputData<V, B>)
    requires |cellNames| == |cellTypes|
    ensures |data.scMeta| == |cellNames|
    ensures forall i :: 0 <= i < |cellNames| ==> data.scMeta[i] == MetaRow(cellNames[i], cellTypes[i])
    ensures data.scGene == Genes(byGene) && data.bulkGene == Genes(bulkTable)
    ensures data.intersectGene == SharedGenes(data.scGene, data.bulkGene)
    ensures Loc(byGene, data.intersectGene) == Some(data.scData)
    ensures Loc(bulkTable, data.intersectGene) == Some(data.bulk)
    ensures Distinct(data.scGene) && Distinct(data.bulkGene) ==>
              Genes(data.scData) == data.intersectGene && Genes(data.bulk) == data.intersectGene
  {
    var meta := seq(|cellNames|, i requires 0 <= i < |cellNames| => MetaRow(cellNames[i], cellTypes[i]));
    var intersect, scData, bulk := Align(byGene, bulkTable);
    data := InputData(meta, Genes(byGene), Genes(bulkTable), intersect, scData, bulk);
  }
}
