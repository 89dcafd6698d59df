/**
 * The pure parts of the hover controller of js/squares.js: where the minus
 * controls are placed, and when leaving the table or a button hides them.
 * The three geometry constants (`--square-size`, `--square-offset`,
 * `--square-border-width`) are integer parameters.
 */
module Hover {

  import opened Wrappers

  /** The pixel offset of the minus control for the 1-based row or column
      `index`: used as the minus-column's `left` and the minus-row's `top`. */
  function MinusOffset(index: int, size: int, offset: int, border: int): int
  {
    index * size + offset + (index - 1) * border
  }

  /** Reference layout: cells of width `size` separated by borders of width
      `border`, the first starting `offset` in.  The far edge of cell 1 lies at
      `offset + size`, and each further cell adds one border and one cell. */
  function FarEdge(index: nat, size: int, offset: int, border: int): int
    requires index >= 1
  {
    if index == 1 then offset + size
    else FarEdge(index - 1, size, offset, border) + border + size
  }

  /** The minus control for a row or column sits at that cell's far edge. */
  lemma {:induction false} MinusOffsetIsFarEdge(index: nat, size: int, offset: int, border: int)
    requires index >= 1
    ensures MinusOffset(index, size, offset, border) == FarEdge(index, size, offset, border)
  {
    if index > 1 {
      MinusOffsetIsFarEdge(index - 1, size, offset, border);
      assert MinusOffset(index, size, offset, border)
          == MinusOffset(index - 1, size, offset, border) + border + size;
    }
  }

  /** When a cell plus its border has positive width, a later row or column puts
      its minus control strictly further along. */
  lemma {:induction false} MinusOffsetIncreasing(i: nat, j: nat, size: int, offset: int, border: int)
    requires 1 <= i < j
    requires size + border > 0
    ensures MinusOffset(i, size, offset, border) < MinusOffset(j, size, offset, border)
  {
    var step := size + border;
    assert MinusOffset(j, size, offset, border) - MinusOffset(i, size, offset, border)
        == (j - i) * step;
    assert (j - i) * step >= step by {
      assert j - i >= 1;
      assert (j - i) * step == step + (j - i - 1) * step;
      assert (j - i - 1) * step >= 0;
    }
  }

  /** The mouse-leave rule: hide the minus controls when leaving the table for
      anything but a button, or a button for anything but the table.  A missing
      related element (`relatedTarget` null) is neither. */
  function ShouldHide(targetName: string, relatedName: Option<string>): bool
  {
    || (targetName == "table" && relatedName != Some("button"))
    || (targetName == "button" && relatedName != Some("table"))
  }

  /** The table and the buttons form the region the pointer may move within. */
  predicate InRegion(name: Option<string>)
  {
    name == Some("table") || name == Some("button")
  }

  /** The rule in terms of the region: the move hides the controls exactly when it
      starts in the region and ends outside it, or goes from an element of the
      region to one of the same kind (button to button, table to table). */
  lemma ShouldHideRegion(targetName: string, relatedName: Option<string>)
    ensures ShouldHide(targetName, relatedName)
        <==> InRegion(Some(targetName)) && (!InRegion(relatedName) || relatedName == Some(targetName))
  {
  }

  /** Moving across the gap between the grid and a minus control, either way,
      keeps the controls shown. */
  lemma CrossingKeepsShown()
    ensures !ShouldHide("table", Some("button"))
    ensures !ShouldHide("button", Some("table"))
  {
  }
}
