/**
 * The grid of js/squares.js as plain data: the `tr` children of the `tbody`,
 * each with its `td` children.  An element is a value carrying a `node` handle
 * that stands for its identity (two elements with equal attributes are still
 * different nodes) and its `data-` attribute.
 *
 * The functions below state what each click handler leaves behind; the lemmas
 * prove that each handler keeps the grid invariant and relates the new grid to
 * the old one.  The handlers themselves are the methods of Widget.Squares.
 */
module Grid {

  /** A `td` with its `data-column` attribute. */
  datatype Cell = Cell(node: nat, dataColumn: int)

  /** A `tr` with its `data-row` attribute and its `td` children, in order. */
  datatype Row = Row(node: nat, dataRow: int, cells: seq<Cell>)

  /** Row indices are exactly 1..n, by position. */
  predicate RowsNumbered(rows: seq<Row>)
  {
    forall i :: 0 <= i < |rows| ==> rows[i].dataRow == i + 1
  }

  /** Column indices within one row are exactly 1..m, by position. */
  predicate CellsNumbered(cells: seq<Cell>)
  {
    forall j :: 0 <= j < |cells| ==> cells[j].dataColumn == j + 1
  }

  /** Every row has as many cells as the first. */
  predicate Rectangular(rows: seq<Row>)
  {
    forall i :: 0 <= i < |rows| ==> |rows[i].cells| == |rows[0].cells|
  }

  /** The grid invariant: at least one row and one cell, rectangular, and
      row and column indices contiguous from 1. */
  predicate ValidGrid(rows: seq<Row>)
  {
    && |rows| >= 1
    && |rows[0].cells| >= 1
    && Rectangular(rows)
    && RowsNumbered(rows)
    && forall i :: 0 <= i < |rows| ==> CellsNumbered(rows[i].cells)
  }

  /** Every element of the grid has a handle below `next`: the handles that
      `next` and above stand for have not been created yet. */
  predicate HandlesBelow(rows: seq<Row>, next: nat)
  {
    forall i :: 0 <= i < |rows| ==>
      && rows[i].node < next
      && forall a :: 0 <= a < |rows[i].cells| ==> rows[i].cells[a].node < next
  }

  /** `$els.trows.countChildren()`: the cell count of the first row. */
  function ColumnCount(rows: seq<Row>): nat
    requires |rows| >= 1
  {
    |rows[0].cells|
  }

  // ---------------------------------------------------------------- add column

  /** Row `i` after the add-column handler: a new cell, created as node
      `next + i`, whose `data-column` is the row's own cell count + 1. */
  function WithNewCell(tr: Row, node: nat): Row
  {
    tr.(cells := tr.cells + [Cell(node, |tr.cells| + 1)])
  }

  /** The grid after the add-column handler, new cells taking handles from `next`. */
  function AddedColumn(rows: seq<Row>, next: nat): seq<Row>
  {
    seq(|rows|, i requires 0 <= i < |rows| => WithNewCell(rows[i], next + i))
  }

  /** Add-column changes every row by appending exactly one new cell numbered
      by that row's previous count + 1; no row is added, moved or renumbered,
      and the existing cells are unchanged.  The new cells are distinct nodes,
      none below `next`, so none is an element the grid already had.  (This
      spells out the definition for the reader; the invariant and the round
      trip below are where the operation is checked.) */
  lemma AddColumnShape(rows: seq<Row>, next: nat)
    ensures |AddedColumn(rows, next)| == |rows|
    ensures forall i :: 0 <= i < |rows| ==>
      && AddedColumn(rows, next)[i].node == rows[i].node
      && AddedColumn(rows, next)[i].dataRow == rows[i].dataRow
      && AddedColumn(rows, next)[i].cells == rows[i].cells + [Cell(next + i, |rows[i].cells| + 1)]
    ensures forall i :: 0 <= i < |rows| ==>
      AddedColumn(rows, next)[i].cells[|rows[i].cells|].node >= next
    ensures forall i, k :: 0 <= i < k < |rows| ==>
      AddedColumn(rows, next)[i].cells[|rows[i].cells|].node
        != AddedColumn(rows, next)[k].cells[|rows[k].cells|].node
  {
  }

  /** Add-column keeps the invariant, and the grid is one column wider. */
  lemma AddColumnKeepsValid(rows: seq<Row>, next: nat)
    requires ValidGrid(rows)
    ensures ValidGrid(AddedColumn(rows, next))
    ensures ColumnCount(AddedColumn(rows, next)) == ColumnCount(rows) + 1
    ensures HandlesBelow(rows, next) ==> HandlesBelow(AddedColumn(rows, next), next + |rows|)
  {
    var r := AddedColumn(rows, next);
    forall i | 0 <= i < |r|
      ensures CellsNumbered(r[i].cells)
    {
      assert r[i].cells == rows[i].cells + [Cell(next + i, |rows[i].cells| + 1)];
    }
  }

  // ------------------------------------------------------------------- add row

  /** The grid after the add-row handler: one new row, node `next`, whose
      `data-row` is the previous row count + 1 and whose cells are clones of the
      first row's cells: fresh nodes `next + 1 + j` with the same attributes. */
  function AddedRow(rows: seq<Row>, next: nat): seq<Row>
    requires |rows| >= 1
  {
    var first := rows[0].cells;
    rows + [Row(next, |rows| + 1,
                seq(|first|, j requires 0 <= j < |first| => Cell(next + 1 + j, first[j].dataColumn)))]
  }

  /** Add-row keeps the existing rows, appends one row numbered by the previous
      row count + 1, with as many cells as the first row carrying the same
      column indices.  The clones are distinct nodes, none equal to the new
      row's node and none below `next`: a clone copies attributes, not identity.
      (This spells out the definition for the reader; the invariant and the
      round trip below are where the operation is checked.) */
  lemma AddRowShape(rows: seq<Row>, next: nat)
    requires |rows| >= 1
    ensures |AddedRow(rows, next)| == |rows| + 1
    ensures AddedRow(rows, next)[..|rows|] == rows
    ensures AddedRow(rows, next)[|rows|].node == next
    ensures AddedRow(rows, next)[|rows|].dataRow == |rows| + 1
    ensures |AddedRow(rows, next)[|rows|].cells| == |rows[0].cells|
    ensures forall j :: 0 <= j < |rows[0].cells| ==>
      AddedRow(rows, next)[|rows|].cells[j] == Cell(next + 1 + j, rows[0].cells[j].dataColumn)
    ensures forall j :: 0 <= j < |rows[0].cells| ==> AddedRow(rows, next)[|rows|].cells[j].node > next
    ensures forall j, l :: 0 <= j < l < |rows[0].cells| ==>
      AddedRow(rows, next)[|rows|].cells[j].node != AddedRow(rows, next)[|rows|].cells[l].node
  {
  }

  /** Add-row keeps the invariant, and the grid is one row taller. */
  lemma AddRowKeepsValid(rows: seq<Row>, next: nat)
    requires ValidGrid(rows)
    ensures ValidGrid(AddedRow(rows, next))
    ensures |AddedRow(rows, next)| == |rows| + 1
    ensures ColumnCount(AddedRow(rows, next)) == ColumnCount(rows)
    ensures HandlesBelow(rows, next) ==>
      HandlesBelow(AddedRow(rows, next), next + 1 + ColumnCount(rows))
  {
    var r := AddedRow(rows, next);
    assert r[0] == rows[0];
    assert CellsNumbered(rows[0].cells);
    forall i | 0 <= i < |r|
      ensures CellsNumbered(r[i].cells)
    {
      if i < |rows| {
        assert r[i] == rows[i];
      }
    }
  }

  // ---------------------------------------------------------------- renumbering

  /** `each(($tr, index) => $tr.setAttr('data-row', index + 1))`. */
  function RenumberedRows(rows: seq<Row>): seq<Row>
  {
    seq(|rows|, i requires 0 <= i < |rows| => rows[i].(dataRow := i + 1))
  }

  /** `each(($td, index) => $td.setAttr('data-column', index + 1))`. */
  function RenumberedCells(cells: seq<Cell>): seq<Cell>
  {
    seq(|cells|, j requires 0 <= j < |cells| => cells[j].(dataColumn := j + 1))
  }

  /** Renumbering rows numbers them 1..n and touches nothing but `data-row`. */
  lemma RenumberedRowsSpec(rows: seq<Row>)
    ensures |RenumberedRows(rows)| == |rows|
    ensures RowsNumbered(RenumberedRows(rows))
    ensures forall i :: 0 <= i < |rows| ==>
      RenumberedRows(rows)[i].node == rows[i].node && RenumberedRows(rows)[i].cells == rows[i].cells
    ensures RowsNumbered(rows) ==> RenumberedRows(rows) == rows
  {
  }

  /** Renumbering cells numbers them 1..m and keeps every node in place. */
  lemma RenumberedCellsSpec(cells: seq<Cell>)
    ensures |RenumberedCells(cells)| == |cells|
    ensures CellsNumbered(RenumberedCells(cells))
    ensures forall j :: 0 <= j < |cells| ==> RenumberedCells(cells)[j].node == cells[j].node
    ensures CellsNumbered(cells) ==> RenumberedCells(cells) == cells
  {
  }

  // ---------------------------------------------------------------- remove row

  /** The grid after the remove-row handler detached the row at position `k`
      and renumbered the rest. */
  function RemovedRow(rows: seq<Row>, k: int): seq<Row>
    requires 0 <= k < |rows|
  {
    RenumberedRows(rows[..k] + rows[k + 1..])
  }

  /** Remove-row drops exactly the row at position `k`; the rows before it keep
      their position, the rows after it move up by one, and each row is
      renumbered to its new position with its node and cells unchanged. */
  lemma RemoveRowShape(rows: seq<Row>, k: int)
    requires 0 <= k < |rows|
    ensures |RemovedRow(rows, k)| == |rows| - 1
    ensures forall i :: 0 <= i < k ==>
      RemovedRow(rows, k)[i] == rows[i].(dataRow := i + 1)
    ensures forall i :: k <= i < |rows| - 1 ==>
      RemovedRow(rows, k)[i] == rows[i + 1].(dataRow := i + 1)
  {
  }

  /** Remove-row above the one-row floor keeps the invariant. */
  lemma RemoveRowKeepsValid(rows: seq<Row>, k: int, next: nat)
    requires ValidGrid(rows) && |rows| > 1 && 0 <= k < |rows|
    ensures ValidGrid(RemovedRow(rows, k))
    ensures ColumnCount(RemovedRow(rows, k)) == ColumnCount(rows)
    ensures HandlesBelow(rows, next) ==> HandlesBelow(RemovedRow(rows, k), next)
  {
    var r := RemovedRow(rows, k);
    RemoveRowShape(rows, k);
    forall i | 0 <= i < |r|
      ensures r[i].cells == rows[if i < k then i else i + 1].cells
      ensures r[i].node == rows[if i < k then i else i + 1].node
    {
    }
    assert r[0].cells == rows[if 0 < k then 0 else 1].cells;
  }

  /** Adding a row and then removing it (the new row is hovered as row n + 1)
      gives back the grid as it was. */
  lemma AddThenRemoveRow(rows: seq<Row>, next: nat)
    requires ValidGrid(rows)
    ensures RemovedRow(AddedRow(rows, next), |rows|) == rows
  {
    var added := AddedRow(rows, next);
    assert added[..|rows|] + added[|rows| + 1..] == rows;
    RenumberedRowsSpec(rows);
  }

  // ------------------------------------------------------------- remove column

  /** Every row has a cell at position `k`. */
  predicate EveryRowHas(rows: seq<Row>, k: int)
  {
    forall i :: 0 <= i < |rows| ==> 0 <= k < |rows[i].cells|
  }

  /** One row after the remove-column handler detached its cell at position `k`
      and renumbered the rest. */
  function WithoutCell(tr: Row, k: int): Row
    requires 0 <= k < |tr.cells|
  {
    tr.(cells := RenumberedCells(tr.cells[..k] + tr.cells[k + 1..]))
  }

  /** The grid after the remove-column handler. */
  function RemovedColumn(rows: seq<Row>, k: int): seq<Row>
    requires EveryRowHas(rows, k)
  {
    seq(|rows|, i requires 0 <= i < |rows| => WithoutCell(rows[i], k))
  }

  /** Remove-column drops exactly the cell at position `k` in every row; in each
      row the cells before it stay, those after it move up by one, and all are
      renumbered to their new position; rows keep their node and `data-row`. */
  lemma RemoveColumnShape(rows: seq<Row>, k: int)
    requires EveryRowHas(rows, k)
    ensures |RemovedColumn(rows, k)| == |rows|
    ensures forall i :: 0 <= i < |rows| ==>
      && RemovedColumn(rows, k)[i].node == rows[i].node
      && RemovedColumn(rows, k)[i].dataRow == rows[i].dataRow
      && |RemovedColumn(rows, k)[i].cells| == |rows[i].cells| - 1
    ensures forall i, j :: 0 <= i < |rows| && 0 <= j < |rows[i].cells| - 1 ==>
      RemovedColumn(rows, k)[i].cells[j]
        == rows[i].cells[if j < k then j else j + 1].(dataColumn := j + 1)
  {
  }

  /** Remove-column above the one-cell floor keeps the invariant. */
  lemma RemoveColumnKeepsValid(rows: seq<Row>, k: int, next: nat)
    requires ValidGrid(rows) && ColumnCount(rows) > 1 && 0 <= k < ColumnCount(rows)
    ensures EveryRowHas(rows, k)
    ensures ValidGrid(RemovedColumn(rows, k))
    ensures |RemovedColumn(rows, k)| == |rows|
    ensures ColumnCount(RemovedColumn(rows, k)) == ColumnCount(rows) - 1
    ensures HandlesBelow(rows, next) ==> HandlesBelow(RemovedColumn(rows, k), next)
  {
    var r := RemovedColumn(rows, k);
    RemoveColumnShape(rows, k);
    forall i | 0 <= i < |r|
      ensures CellsNumbered(r[i].cells)
    {
      RenumberedCellsSpec(rows[i].cells[..k] + rows[i].cells[k + 1..]);
    }
  }

  /** Adding a column and then removing the last column gives back the grid. */
  lemma AddThenRemoveColumn(rows: seq<Row>, next: nat)
    requires ValidGrid(rows)
    ensures EveryRowHas(AddedColumn(rows, next), ColumnCount(rows))
    ensures RemovedColumn(AddedColumn(rows, next), ColumnCount(rows)) == rows
  {
    var m := ColumnCount(rows);
    var added := AddedColumn(rows, next);
    var r := RemovedColumn(added, m);
    forall i | 0 <= i < |rows|
      ensures r[i] == rows[i]
    {
      var cs := added[i].cells;
      assert cs == rows[i].cells + [Cell(next + i, m + 1)];
      assert cs[..m] + cs[m + 1..] == rows[i].cells;
      RenumberedCellsSpec(rows[i].cells);
    }
  }
}
