/**
 * The widget state of js/squares.js and its event handlers.
 *
 * `rows` is the grid: the `tr` children of the `tbody`.  The cached facade
 * `$els.trows` wraps the very same `tr` elements: it is re-queried from the
 * `tbody` after every change to the set of rows (add-row, remove-row), and the
 * column handlers change the children of the `tr` objects both hold, so one
 * sequence stands for both.
 * `row` and `column` are the hover selection (`null` until the first hover),
 * `minusShown` is the `show` class shared by both minus controls, and
 * `minusColumnLeft` / `minusRowTop` are their inline positions.  `nextNode` is
 * the handle the next created or cloned element receives.
 */
module Widget {

  import opened Wrappers
  import opened Facade
  import opened Grid
  import opened Hover

  /** The hover selection `sel` names a row (or column) among `n`. */
  predicate Selects(sel: Option<int>, n: int)
  {
    sel.Some? && 1 <= sel.value <= n
  }

  /** `row - 1` / `column - 1`: the position a remove handler targets; in
      JavaScript `null - 1` is `-1`. */
  function TargetIndex(sel: Option<int>): int
  {
    if sel.None? then -1 else sel.value - 1
  }

  /** `$els.tbody.find('tr').each(($tr, index) => $tr.setAttr('data-row', index + 1))`. */
  method NumberRows(trs: seq<Row>) returns (numbered: seq<Row>)
    ensures numbered == RenumberedRows(trs)
  {
    numbered := trs;
    var i := 0;
    while i < |numbered|
      invariant 0 <= i <= |numbered| == |trs|
      invariant forall a :: 0 <= a < i ==> numbered[a] == trs[a].(dataRow := a + 1)
      invariant forall a :: i <= a < |trs| ==> numbered[a] == trs[a]
    {
      numbered := numbered[i := numbered[i].(dataRow := i + 1)];
      i := i + 1;
    }
  }

  /** `$tr.children().each(($td, index) => $td.setAttr('data-column', index + 1))`. */
  method NumberCells(tds: seq<Cell>) returns (numbered: seq<Cell>)
    ensures numbered == RenumberedCells(tds)
  {
    numbered := tds;
    var j := 0;
    while j < |numbered|
      invariant 0 <= j <= |numbered| == |tds|
      invariant forall a :: 0 <= a < j ==> numbered[a] == tds[a].(dataColumn := a + 1)
      invariant forall a :: j <= a < |tds| ==> numbered[a] == tds[a]
    {
      numbered := numbered[j := numbered[j].(dataColumn := j + 1)];
      j := j + 1;
    }
  }

  /** `$tr.children().remove(index).each(...)`: the row without its cell at
      `index`, the remaining cells renumbered; throws, leaving the row as it
      was, when there is no cell there. */
  method RemoveCell(tr: Row, index: int) returns (res: Outcome, updated: Row)
    ensures res.Pass? <==> 0 <= index < |tr.cells|
    ensures res.Pass? ==> updated == WithoutCell(tr, index)
    ensures res.Fail? ==> res == Fail(IndexOutOfRange(index)) && updated == tr
  {
    var tds := new Dom(tr.cells);
    res := tds.Remove(index);
    if res.Fail? {
      return res, tr;
    }
    var cells := NumberCells(tds.elements);
    updated := tr.(cells := cells);
  }

  /** `$els.trows.remove(index)`, then `$els.tbody.find('tr')` renumbered: the
      rows without the one at `index`, renumbered; throws, leaving the rows as
      they were, when there is no row there. */
  method RemoveRowAt(trs: seq<Row>, index: int) returns (res: Outcome, updated: seq<Row>)
    ensures res.Pass? <==> 0 <= index < |trs|
    ensures res.Pass? ==> updated == RemovedRow(trs, index)
    ensures res.Fail? ==> res == Fail(IndexOutOfRange(index)) && updated == trs
  {
    var trows := new Dom(trs);
    res := trows.Remove(index);
    if res.Fail? {
      return res, trs;
    }
    // the detached row has left the tbody: $els.tbody.find('tr') is what remains
    updated := NumberRows(trows.elements);
  }

  /** `$els.trows.each($tr => $tr.children().remove(index).each(...))`: every row
      without its cell at `index`, renumbered.  On a rectangular grid a missing
      cell is missing from the first row already, so the throw leaves every row
      as it was. */
  method RemoveColumnAt(trs: seq<Row>, index: int) returns (res: Outcome, updated: seq<Row>)
    requires Rectangular(trs)
    ensures res.Pass? <==> EveryRowHas(trs, index)
    ensures res.Pass? ==> updated == RemovedColumn(trs, index)
    ensures res.Fail? ==> res == Fail(IndexOutOfRange(index)) && updated == trs
  {
    updated := trs;
    res := Pass;
    var i := 0;
    while i < |updated|
      invariant 0 <= i <= |updated| == |trs|
      invariant res == Pass
      invariant i > 0 ==> 0 <= index < |trs[0].cells|
      invariant forall a :: 0 <= a < i ==>
        0 <= index < |trs[a].cells| && updated[a] == WithoutCell(trs[a], index)
      invariant forall a :: i <= a < |trs| ==> updated[a] == trs[a]
    {
      var tr;
      res, tr := RemoveCell(updated[i], index);
      if res.Fail? {
        assert !(0 <= index < |trs[i].cells|);
        return res, trs;
      }
      updated := updated[i := tr];
      i := i + 1;
    }
    assert EveryRowHas(trs, index);
    assert updated == RemovedColumn(trs, index);
  }

  class Squares {
    var rows: seq<Row>
    var nextNode: nat
    var row: Option<int>
    var column: Option<int>
    var minusShown: bool
    var minusColumnLeft: Option<int>
    var minusRowTop: Option<int>

    /** The grid invariant, every element handle already issued, and: while the
        minus controls are shown, the hover selection names an existing row and
        column. */
    ghost predicate Valid()
      reads this
    {
      && ValidGrid(rows)
      && HandlesBelow(rows, nextNode)
      && (minusShown ==> Selects(row, |rows|) && Selects(column, ColumnCount(rows)))
    }

    /** `setEls`: four `tr` with `data-row` 1..4, then four `td` with
        `data-column` 1..4 appended to each; nothing hovered, minus controls hidden. */
    constructor ()
      ensures Valid()
      ensures |rows| == 4
      ensures forall i :: 0 <= i < 4 ==> rows[i].dataRow == i + 1 && |rows[i].cells| == 4
      ensures forall i, j :: 0 <= i < 4 && 0 <= j < 4 ==> rows[i].cells[j].dataColumn == j + 1
      ensures row == None && column == None && !minusShown
      ensures minusColumnLeft == None && minusRowTop == None
    {
      // [1,2,3,4].map(index => Dom.create('tr', {'data-row': index}))
      var trs := seq(4, i requires 0 <= i < 4 => Row(i, i + 1, []));
      var next := 4;
      var i := 0;
      while i < 4
        invariant 0 <= i <= 4 && |trs| == 4
        invariant next == 4 + 4 * i
        invariant forall k :: 0 <= k < i ==>
          trs[k].dataRow == k + 1 && |trs[k].cells| == 4 && CellsNumbered(trs[k].cells)
        invariant forall k :: i <= k < 4 ==> trs[k] == Row(k, k + 1, [])
        invariant HandlesBelow(trs, next)
      {
        var tr := trs[i];
        var j := 0;
        while j < 4
          invariant 0 <= j <= 4
          invariant next == 4 + 4 * i + j
          invariant tr.node == i && tr.dataRow == i + 1 && |tr.cells| == j
          invariant CellsNumbered(tr.cells)
          invariant forall a :: 0 <= a < j ==> tr.cells[a].node < next
        {
          // Dom.create('td', {'data-column': index}), then $tr.append($td)
          tr := tr.(cells := tr.cells + [Cell(next, j + 1)]);
          next := next + 1;
          j := j + 1;
        }
        trs := trs[i := tr];
        i := i + 1;
      }
      rows := trs;
      nextNode := next;
      row, column := None, None;
      minusShown := false;
      minusColumnLeft, minusRowTop := None, None;
    }

    /** `toggleMinuses(cls)`: adds the `show` class to both minus controls when
        `cls` is `'show'`, removes it otherwise (including when called with no
        argument, `None`).  In the source it is private to the widget and only
        the handlers call it: hiding keeps the invariant, while showing is the
        last step of a hover, which has set the selection first. */
    method ToggleMinuses(cls: Option<string>)
      modifies this
      ensures minusShown == (cls == Some("show"))
      ensures old(Valid()) && cls != Some("show") ==> Valid()
      ensures rows == old(rows) && nextNode == old(nextNode)
      ensures row == old(row) && column == old(column)
      ensures minusColumnLeft == old(minusColumnLeft) && minusRowTop == old(minusRowTop)
    {
      minusShown := cls == Some("show");
    }

    /** `rowMouseOverHandler`, the pointer over cell `c` of row `r` (positions):
        records the cell's `data-column` and the row's `data-row` as the hover
        selection, positions both minus controls and shows them. */
    method RowMouseOver(r: nat, c: nat, size: int, offset: int, border: int)
      requires Valid()
      requires r < |rows| && c < |rows[r].cells|
      modifies this
      ensures Valid()
      ensures rows == old(rows) && nextNode == old(nextNode)
      ensures column == Some(old(rows)[r].cells[c].dataColumn) && row == Some(old(rows)[r].dataRow)
      ensures column == Some(c + 1) && row == Some(r + 1)
      ensures minusColumnLeft == Some(MinusOffset(c + 1, size, offset, border))
      ensures minusRowTop == Some(MinusOffset(r + 1, size, offset, border))
      ensures minusShown
    {
      var col := rows[r].cells[c].dataColumn;
      column := Some(col);
      minusColumnLeft := Some(MinusOffset(col, size, offset, border));
      var rw := rows[r].dataRow;
      row := Some(rw);
      minusRowTop := Some(MinusOffset(rw, size, offset, border));
      ToggleMinuses(Some("show"));
    }

    /** The `mouseleave` handler on the table and the buttons: hides the minus
        controls when the rule of Hover.ShouldHide says so, and else does nothing. */
    method MouseLeave(targetName: string, relatedName: Option<string>)
      requires Valid()
      modifies this
      ensures Valid()
      ensures minusShown == (old(minusShown) && !ShouldHide(targetName, relatedName))
      ensures rows == old(rows) && nextNode == old(nextNode)
      ensures row == old(row) && column == old(column)
      ensures minusColumnLeft == old(minusColumnLeft) && minusRowTop == old(minusRowTop)
    {
      if ShouldHide(targetName, relatedName) {
        ToggleMinuses(None);
      }
    }

    /** The plus-column click: every row gets one new cell numbered by that row's
        own cell count + 1. */
    method PlusColumnClick()
      requires Valid()
      modifies this
      ensures Valid()
      ensures rows == AddedColumn(old(rows), old(nextNode))
      ensures nextNode == old(nextNode) + |old(rows)|
      ensures row == old(row) && column == old(column) && minusShown == old(minusShown)
      ensures minusColumnLeft == old(minusColumnLeft) && minusRowTop == old(minusRowTop)
    {
      var trs, next := rows, nextNode;
      var i := 0;
      while i < |trs|
        invariant 0 <= i <= |trs| == |rows|
        invariant next == nextNode + i
        invariant forall k :: 0 <= k < i ==> trs[k] == WithNewCell(rows[k], nextNode + k)
        invariant forall k :: i <= k < |trs| ==> trs[k] == rows[k]
      {
        // Dom.create('td', {'data-column': $tr.countChildren() + 1}), then $tr.append($td)
        var td := Cell(next, |trs[i].cells| + 1);
        next := next + 1;
        trs := trs[i := trs[i].(cells := trs[i].cells + [td])];
        i := i + 1;
      }
      AddColumnKeepsValid(rows, nextNode);
      rows, nextNode := trs, next;
    }

    /** The plus-row click: a new row numbered by the row count + 1, holding a
        clone of every cell of the first row, appended to the `tbody`. */
    method PlusRowClick()
      requires Valid()
      modifies this
      ensures Valid()
      ensures rows == AddedRow(old(rows), old(nextNode))
      ensures nextNode == old(nextNode) + 1 + ColumnCount(old(rows))
      ensures row == old(row) && column == old(column) && minusShown == old(minusShown)
      ensures minusColumnLeft == old(minusColumnLeft) && minusRowTop == old(minusRowTop)
    {
      // Dom.create('tr', {'data-row': $els.tbody.countChildren() + 1})
      var tr := Row(nextNode, |rows| + 1, []);
      var next := nextNode + 1;
      var tds := rows[0].cells;
      var j := 0;
      while j < |tds|
        invariant 0 <= j <= |tds|
        invariant next == nextNode + 1 + j
        invariant tr.node == nextNode && tr.dataRow == |rows| + 1 && |tr.cells| == j
        invariant forall a :: 0 <= a < j ==> tr.cells[a] == Cell(nextNode + 1 + a, tds[a].dataColumn)
      {
        // $tr.append($td.clone()): a new node with the same attribute
        tr := tr.(cells := tr.cells + [Cell(next, tds[j].dataColumn)]);
        next := next + 1;
        j := j + 1;
      }
      AddRowShape(rows, nextNode);
      assert tr.cells == AddedRow(rows, nextNode)[|rows|].cells;
      AddRowKeepsValid(rows, nextNode);
      // $els.tbody.append($tr), then $els.trows = $els.tbody.find('tr')
      rows, nextNode := rows + [tr], next;
    }

    /** The minus-row click.  Refuses when one row is left.  Otherwise removes the
        row at position `row - 1` from the cached rows, and so from the `tbody`
        (throwing, with nothing changed, when there is no row there), renumbers
        the remaining rows 1..n-1 and hides the minus controls. */
    method MinusRowClick() returns (res: Outcome)
      requires Valid()
      modifies this
      ensures Valid()
      ensures |old(rows)| == 1 ==> res == Pass && rows == old(rows) && minusShown == old(minusShown)
      ensures |old(rows)| > 1 && Selects(old(row), |old(rows)|) ==>
        && res == Pass
        && rows == RemovedRow(old(rows), old(row).value - 1)
        && !minusShown
      ensures |old(rows)| > 1 && !Selects(old(row), |old(rows)|) ==>
        && res == Fail(IndexOutOfRange(TargetIndex(old(row))))
        && rows == old(rows) && minusShown == old(minusShown)
      ensures old(minusShown) ==> res == Pass
      ensures nextNode == old(nextNode) && row == old(row) && column == old(column)
      ensures minusColumnLeft == old(minusColumnLeft) && minusRowTop == old(minusRowTop)
    {
      if |rows| == 1 {
        return Pass;
      }
      assert Selects(row, |rows|) <==> 0 <= TargetIndex(row) < |rows|;
      var trs;
      res, trs := RemoveRowAt(rows, TargetIndex(row));
      if res.Fail? {
        return;
      }
      RemoveRowKeepsValid(rows, row.value - 1, nextNode);
      rows := trs;
      ToggleMinuses(None);
    }

    /** The minus-column click.  Refuses when the first row has one cell left.
        Otherwise, in every row, removes the cell at position `column - 1`
        (throwing when there is no cell there, which on a rectangular grid
        happens at the first row, before anything changed), renumbers the row's
        remaining cells 1..m-1, and then hides the minus controls. */
    method MinusColumnClick() returns (res: Outcome)
      requires Valid()
      modifies this
      ensures Valid()
      ensures ColumnCount(old(rows)) == 1 ==>
        res == Pass && rows == old(rows) && minusShown == old(minusShown)
      ensures ColumnCount(old(rows)) > 1 && Selects(old(column), ColumnCount(old(rows))) ==>
        && res == Pass
        && EveryRowHas(old(rows), old(column).value - 1)
        && rows == RemovedColumn(old(rows), old(column).value - 1)
        && !minusShown
      ensures ColumnCount(old(rows)) > 1 && !Selects(old(column), ColumnCount(old(rows))) ==>
        && res == Fail(IndexOutOfRange(TargetIndex(old(column))))
        && rows == old(rows) && minusShown == old(minusShown)
      ensures old(minusShown) ==> res == Pass
      ensures nextNode == old(nextNode) && row == old(row) && column == old(column)
      ensures minusColumnLeft == old(minusColumnLeft) && minusRowTop == old(minusRowTop)
    {
      if ColumnCount(rows) == 1 {
        return Pass;
      }
      assert Selects(column, ColumnCount(rows)) <==> EveryRowHas(rows, TargetIndex(column));
      var trs;
      res, trs := RemoveColumnAt(rows, TargetIndex(column));
      if res.Fail? {
        return;
      }
      RemoveColumnKeepsValid(rows, column.value - 1, nextNode);
      rows := trs;
      ToggleMinuses(None);
    }
  }

  /** From the handlers' contracts alone: on the default grid, hovering row 2 /
      cell 3 and adding a column gives every row a fifth cell numbered 5, and
      moving the pointer from the table onto a minus control keeps it shown. */
  method ScenarioAddColumn()
  {
    var w := new Squares();
    w.RowMouseOver(1, 2, 40, 8, 2);
    assert w.row == Some(2) && w.column == Some(3);
    ghost var before := w.rows;
    ghost var next := w.nextNode;
    w.PlusColumnClick();
    AddColumnShape(before, next);
    assert forall i :: 0 <= i < 4 ==> |w.rows[i].cells| == 5 && w.rows[i].cells[4].dataColumn == 5;
    assert forall i :: 0 <= i < 4 ==> w.rows[i].dataRow == i + 1;
    w.MouseLeave("table", Some("button"));
    assert w.minusShown;
  }

  /** From the handlers' contracts alone: a remove before any hover throws;
      removing the hovered row 2 of 4 moves rows 3 and 4 up to 2 and 3; at one
      row, a further click changes nothing. */
  method ScenarioRemoveRows()
  {
    var w := new Squares();
    var res := w.MinusRowClick();
    assert res == Fail(IndexOutOfRange(-1)) && |w.rows| == 4;

    w.RowMouseOver(1, 0, 40, 8, 2);
    ghost var before := w.rows;
    res := w.MinusRowClick();
    assert res == Pass && !w.minusShown;
    RemoveRowShape(before, 1);
    assert |w.rows| == 3;
    assert w.rows[1].node == before[2].node && w.rows[1].dataRow == 2;
    assert w.rows[2].node == before[3].node && w.rows[2].dataRow == 3;

    w.RowMouseOver(0, 0, 40, 8, 2);
    res := w.MinusRowClick();
    w.RowMouseOver(0, 0, 40, 8, 2);
    res := w.MinusRowClick();
    assert |w.rows| == 1;
    before := w.rows;
    res := w.MinusRowClick();
    assert res == Pass && w.rows == before;
  }
}
