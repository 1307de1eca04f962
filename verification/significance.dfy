/**
 The contingency table `perform_chi_squared_test` hands to the chi-squared
 test: `pd.crosstab(df[assignment], df["converted"])`.
 */
module Significance {
  import opened Frames
  import opened Counting

  /**
   A cross-tabulation: the row labels, the column labels, and one count per
   (row label, column label) pair, zero-filled where a pair never occurs.
   */
  datatype Crosstab = Crosstab(rowLabels: set<Cell>, colLabels: set<Cell>, cells: map<(Cell, Cell), nat>)

  /** A cell of the table, reading an absent row or column as zero. */
  function At(t: Crosstab, row: Cell, col: Cell): nat {
    if (row, col) in t.cells then t.cells[(row, col)] else 0
  }

  /**
   `t` cross-tabulates `index` against `columns`: its labels are the values
   the two factors take on the rows where neither is null, it holds a cell
   for every pair of them, and each cell counts the rows carrying that pair
   (a pair that never occurs reads as zero).
   */
  ghost predicate Tabulates(index: seq<Cell>, columns: seq<Cell>, t: Crosstab)
    requires |index| == |columns|
  {
    && (forall r :: r in t.rowLabels <==>
          exists i :: 0 <= i < |index| && index[i] == r && r != Null && columns[i] != Null)
    && (forall c :: c in t.colLabels <==>
          exists i :: 0 <= i < |index| && columns[i] == c && c != Null && index[i] != Null)
    && (forall r, c :: (r, c) in t.cells <==> r in t.rowLabels && c in t.colLabels)
    && (forall r, c :: r != Null && c != Null ==> At(t, r, c) == |PairPositions(index, columns, r, c)|)
  }

  /**
   `pd.crosstab(index, columns)`. Rows where either factor is null are
   dropped, so the labels are the values seen on the remaining rows.
   */
  function CrosstabOf(index: seq<Cell>, columns: seq<Cell>): (t: Crosstab)
    requires |index| == |columns|
    ensures Tabulates(index, columns, t)
    ensures forall r, c :: (r, c) in t.cells ==> t.cells[(r, c)] == |PairPositions(index, columns, r, c)|
  {
    var rows := set i | 0 <= i < |index| && index[i] != Null && columns[i] != Null :: index[i];
    var cols := set i | 0 <= i < |index| && index[i] != Null && columns[i] != Null :: columns[i];
    var pairs := set r, c | r in rows && c in cols :: (r, c);
    var t := Crosstab(rows, cols, map p | p in pairs :: CountPairs(index, columns, p.0, p.1));
    CrosstabTabulates(index, columns, t);
    t
  }

  /** The labels and counts `CrosstabOf` builds make a tabulation. */
  lemma CrosstabTabulates(index: seq<Cell>, columns: seq<Cell>, t: Crosstab)
    requires |index| == |columns|
    requires t.rowLabels == set i | 0 <= i < |index| && index[i] != Null && columns[i] != Null :: index[i]
    requires t.colLabels == set i | 0 <= i < |index| && index[i] != Null && columns[i] != Null :: columns[i]
    requires t.cells == map p | p in (set r, c | r in t.rowLabels && c in t.colLabels :: (r, c)) ::
                          CountPairs(index, columns, p.0, p.1)
    ensures Tabulates(index, columns, t)
  {
    forall i | 0 <= i < |index| && index[i] != Null && columns[i] != Null
      ensures index[i] in t.rowLabels && columns[i] in t.colLabels
    {
    }
    CellsCountPairs(index, columns, t);
  }

  /** A zero-filled grid of pair counts over labels that cover every non-null pair. */
  lemma CellsCountPairs(index: seq<Cell>, columns: seq<Cell>, t: Crosstab)
    requires |index| == |columns|
    requires forall i :: 0 <= i < |index| && index[i] != Null && columns[i] != Null ==>
               index[i] in t.rowLabels && columns[i] in t.colLabels
    requires t.cells == map p | p in (set r, c | r in t.rowLabels && c in t.colLabels :: (r, c)) ::
                          CountPairs(index, columns, p.0, p.1)
    ensures forall r, c :: (r, c) in t.cells <==> r in t.rowLabels && c in t.colLabels
    ensures forall r, c :: r != Null && c != Null ==> At(t, r, c) == |PairPositions(index, columns, r, c)|
  {
    forall r, c ensures (r, c) in t.cells <==> r in t.rowLabels && c in t.colLabels {
      if r in t.rowLabels && c in t.colLabels {
        assert (r, c) in set r, c | r in t.rowLabels && c in t.colLabels :: (r, c);
      }
    }
    forall r, c | (r, c) in t.cells
      ensures At(t, r, c) == |PairPositions(index, columns, r, c)|
    {
      assert t.cells[(r, c)] == CountPairs(index, columns, r, c);
    }
    OccurringPairsHaveCells(index, columns, t);
  }

  /** A pair of non-null values that occurs on some row has a cell in the table. */
  lemma OccurringPairsHaveCells(index: seq<Cell>, columns: seq<Cell>, t: Crosstab)
    requires |index| == |columns|
    requires forall i :: 0 <= i < |index| && index[i] != Null && columns[i] != Null ==>
               (index[i], columns[i]) in t.cells
    ensures forall r, c :: r != Null && c != Null && PairPositions(index, columns, r, c) != {} ==>
              (r, c) in t.cells
  {
    forall r, c | r != Null && c != Null && PairPositions(index, columns, r, c) != {}
      ensures (r, c) in t.cells
    {
      var i :| i in PairPositions(index, columns, r, c);
      assert (index[i], columns[i]) == (r, c);
    }
  }

  /**
   The table of `perform_chi_squared_test`, or `None` when the assignment
   column or the `converted` column is missing from the frame.
   */
  function ContingencyTable(f: Frame, assignment: string): (t: Option<Crosstab>)
    requires f.Valid()
    ensures t.Some? <==> assignment in f.cols && ConvertedColumn in f.cols
    ensures t.Some? ==> Tabulates(f.cols[assignment], f.cols[ConvertedColumn], t.value)
  {
    if assignment !in f.cols || ConvertedColumn !in f.cols then None
    else Some(CrosstabOf(f.cols[assignment], f.cols[ConvertedColumn]))
  }

  /** Sum of column `col` of the table over the row labels `order`. */
  function ColumnTotal(t: Crosstab, col: Cell, order: seq<Cell>): nat {
    if |order| == 0 then 0 else At(t, order[0], col) + ColumnTotal(t, col, order[1..])
  }
}
