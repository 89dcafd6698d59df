# Squares grid widget — a Dafny model

`js/squares.js` renders a resizable grid: hovering a cell shows a minus-row
and a minus-column control next to the hovered row and column, and four
buttons add a row, add a column, remove the hovered row or remove the hovered
column.  The rows carry a `data-row` attribute and the cells a `data-column`
attribute that always run 1, 2, 3, … by position.

This project models the grid state machine underneath the DOM calls:

- `wrappers.dfy` — `Option`, standing for the source's `null`.
- `facade.dfy` (module `Facade`) — the `Dom` facade's indexed removal:
  `remove(index)` detaches the element at `index` and filters it out of the
  wrapped set, or throws when `elements[index]` is `undefined`.
- `grid.dfy` (module `Grid`) — rows and cells as values (each with a `node`
  handle for its identity), the grid invariant (at least 1×1, rectangular,
  row and column indices contiguous from 1), the grid each click handler
  leaves behind, and the lemmas that each handler keeps the invariant, with
  the two add-then-remove round trips.
- `hover.dfy` (module `Hover`) — the minus-control offset formula, proved
  equal to a cell-by-cell layout, and the mouse-leave hide rule.
- `squares.dfy` (module `Widget`) — class `Squares`, the widget's mutable
  state (the rows of the `tbody`, the hover selection, the shared `show`
  flag and the control positions) with `setEls` as its constructor and the
  event handlers as methods, each proved against the functions of `Grid`.
  Its object invariant adds one property of the widget as a whole: while the
  minus controls are shown, the hover selection names an existing row and
  column, so clicking a visible minus control never throws.

Points of the code's behaviour that the model reproduces as written:

- The mouse-leave rule (js/squares.js:178-179) hides the controls when the
  pointer goes from a button straight onto another button, and from the table
  onto the table, not only when it leaves the table-and-buttons region.
  `Hover.ShouldHideRegion` states the rule as written.
- An out-of-range removal is, in the code, a `TypeError` from calling
  `.remove()` on `undefined`; the model reports it as
  `Fail(IndexOutOfRange(index))` with the state unchanged (the throw happens
  before anything is modified).
- A remove click before any hover targets position `null - 1`, which is `-1`
  in JavaScript, and so throws; the model gives the same failure.

## Model

| member | source | states |
|---|---|---|
| `Facade.Filtered` | js/squares.js:54 | filtering by position drops one element exactly when the position is in range, otherwise none |
| `Facade.FilteredSplices` | js/squares.js:54 | for an in-range index the filter removes exactly the element at that index and keeps the others in order |
| `Facade.FilteredOutside` | js/squares.js:54 | for an out-of-range index the filter keeps every element |
| `Facade.FilteredReinsert` | js/squares.js:52-56 | putting the removed element back at its position restores the original sequence |
| `Facade.Dom.constructor` | js/squares.js:9-10 | a facade built from a sequence wraps exactly those elements in order |
| `Facade.Dom.Remove` | js/squares.js:52-56 | succeeds exactly when the index is in range, then the wrapped set loses exactly that element; otherwise fails with IndexOutOfRange and nothing changes |
| `Grid.AddColumnShape` | js/squares.js:184-189 | every row gains exactly one cell at its end, a new node numbered by that row's previous cell count + 1; rows are neither added, moved nor renumbered, existing cells unchanged; the new cells are distinct nodes none below the next free handle |
| `Grid.AddColumnKeepsValid` | js/squares.js:184-189 | add-column keeps the grid invariant, widens the grid by one column, and uses only handles not yet issued |
| `Grid.AddRowShape` | js/squares.js:191-199 | add-row keeps every existing row, appends one new row numbered by the previous row count + 1 whose cells copy the first row's column indices as distinct new nodes, a clone copying attributes and not identity |
| `Grid.AddRowKeepsValid` | js/squares.js:191-199 | add-row keeps the grid invariant and makes the grid one row taller with the same column count |
| `Grid.RenumberedRowsSpec` | js/squares.js:204-206 | renumbering rows makes their indices 1..n and changes nothing else; it is the identity on already numbered rows |
| `Grid.RenumberedCellsSpec` | js/squares.js:214-216 | renumbering cells makes their indices 1..m and keeps every node; the identity on already numbered cells |
| `Grid.RemoveRowShape` | js/squares.js:201-208 | remove-row drops exactly the row at the target position; earlier rows stay, later rows move up by one, each renumbered to its new position with node and cells unchanged |
| `Grid.RemoveRowKeepsValid` | js/squares.js:201-208 | above the one-row floor, remove-row keeps the grid invariant and the column count |
| `Grid.AddThenRemoveRow` | js/squares.js:191-208 | adding a row and then removing the new row (hovered as row n + 1) gives back the original grid |
| `Grid.RemoveColumnShape` | js/squares.js:210-220 | remove-column drops exactly the cell at the target position in every row and renumbers each row's remaining cells by position; rows keep node and index |
| `Grid.RemoveColumnKeepsValid` | js/squares.js:210-220 | above the one-cell floor, remove-column keeps the grid invariant, keeps the row count and narrows the grid by one column |
| `Grid.AddThenRemoveColumn` | js/squares.js:184-220 | adding a column and then removing the last column gives back the original grid |
| `Hover.MinusOffsetIsFarEdge` | js/squares.js:163-167 | the offset `i*size + offset + (i-1)*border` is the far edge of cell i in a layout of cells separated by borders, starting at the offset |
| `Hover.MinusOffsetIncreasing` | js/squares.js:163-167 | when a cell plus a border has positive width, later rows and columns get strictly larger offsets |
| `Hover.ShouldHideRegion` | js/squares.js:175-182 | leaving hides the controls exactly when the target is the table or a button and the related element is outside that pair or of the same kind as the target, a missing related element counting as outside |
| `Hover.CrossingKeepsShown` | js/squares.js:178-179 | moving from the table onto a button, or from a button onto the table, never hides the controls |
| `Widget.NumberRows` | js/squares.js:204-206 | the renumbering loop over the re-queried rows computes exactly the renumbered rows |
| `Widget.NumberCells` | js/squares.js:214-216 | the renumbering loop over a row's cells computes exactly the renumbered cells |
| `Widget.RemoveCell` | js/squares.js:214-216 | removing a row's cell succeeds exactly when the position is in range, giving the row without that cell, renumbered; otherwise IndexOutOfRange and the row as it was |
| `Widget.RemoveRowAt` | js/squares.js:203-206 | removing a row succeeds exactly when the position is in range, giving the remove-row grid; otherwise IndexOutOfRange and the rows as they were |
| `Widget.RemoveColumnAt` | js/squares.js:212-218 | on a rectangular grid, removing a column succeeds exactly when every row has a cell at the position, giving the remove-column grid; otherwise IndexOutOfRange with every row as it was |
| `Widget.Squares.constructor` | js/squares.js:118-131 | the initial grid is valid, with 4 rows numbered 1..4, each with 4 cells numbered 1..4; nothing hovered, controls hidden |
| `Widget.Squares.ToggleMinuses` | js/squares.js:153-156 | the minus controls are shown exactly when called with 'show', nothing else changes, and hiding keeps the widget invariant |
| `Widget.Squares.RowMouseOver` | js/squares.js:158-170 | records the hovered cell's column index and its row's row index, places both minus controls at the offsets for those indices and shows them; the grid is unchanged |
| `Widget.Squares.MouseLeave` | js/squares.js:175-182 | the controls stay shown exactly when they were shown and the hide rule does not fire; nothing else changes |
| `Widget.Squares.PlusColumnClick` | js/squares.js:184-189 | the grid becomes the add-column grid, keeps the invariant, and the hover selection and visibility are untouched |
| `Widget.Squares.PlusRowClick` | js/squares.js:191-199 | the grid becomes the add-row grid (the cached rows being the tbody's rows in order), keeps the invariant, hover and visibility untouched |
| `Widget.Squares.MinusRowClick` | js/squares.js:201-208 | with one row, nothing changes; with a hovered row in range, that row is removed, the rest renumbered and the controls hidden; otherwise it throws IndexOutOfRange and nothing changes; it never throws while the controls are shown |
| `Widget.Squares.MinusColumnClick` | js/squares.js:210-220 | with one cell per row, nothing changes; with a hovered column in range, that cell goes from every row, the rest renumbered and the controls hidden; otherwise it throws IndexOutOfRange and nothing changes; it never throws while the controls are shown |

## Left out

- Event wiring (`on`, `addEventListener`, the event-object decoration, subscribing a new row to `mouseover`, `attachEventHandlers`): a hover, leave or click is a method call; the hovered row and cell are given by their positions and their attributes are read from the grid.
- A `mouseover` whose target is the row itself rather than a cell: `data('column')` is then `undefined` and the column becomes `NaN`; the model only hovers cells.
- Reading the CSS variables with `getComputedStyle` and `parseInt`, with its `NaN` results: size, offset and border are integer parameters.
- Pixel strings, inline styles and class lists: positions are integers and the `show` class is one flag. Whether a hidden minus control can be clicked is a matter of styling; the model lets any click happen and gives its error path.
- The facade's other members (`find`, `each`, `append`, `children`, `countChildren`, `length`, `clone`, `name`, `data`, `setAttr`, `getElements`, `css`, `addClass`, `removeClass`, `create`, `getCssVariable`) are not separate members: `find('tr')` is the sequence of rows, `each` a loop, `append` adding at the end, `clone` a new node with the same attribute, `countChildren` a length.
- The facade constructor's runtime dispatch on a selector string, an element or an array, with its `Invalid type of elements` error: host-platform type checks.
- The wrapper, the controls container, the four buttons with their labels, the `table_buttons` and `minuses` caches, and the order in which they are appended to the root: markup without logic of its own.
- `init` and its check that the root selector matches something; several widgets mounted on one page.
- The cached `$els.trows` and the `tbody` children are one sequence; in the source they hold the same element objects, the cache is re-queried after every change to the set of rows (add-row at js/squares.js:198, remove-row at js/squares.js:204), and the column handlers change the children of the very `tr` objects both hold, so they never differ.
- Element identity is a `node` handle; the model proves that new elements get handles not yet issued, not that all handles in the grid are pairwise distinct.
