/**
 * The selection state machine of the sheet: the selected cell and the two
 * handlers that change it, the sheet's onKeyUp (arrow navigation) and a
 * cell's onClick (toggle). Each handler is one atomic transition from the
 * selection before the event to the selection after it.
 */
module Navigation {
  import opened Wrappers

  /** A cell coordinate `{ row, column }`, 0-based. */
  datatype Coord = Coord(row: nat, column: nat)

  /** The selected cell, or `None` (the source's `null`). */
  type Selection = Option<Coord>

  /** `a` and `b` are next to each other in a row or in a column. */
  predicate Adjacent(a: Coord, b: Coord) {
    (a.row == b.row && (a.column + 1 == b.column || b.column + 1 == a.column)) ||
    (a.column == b.column && (a.row + 1 == b.row || b.row + 1 == a.row))
  }

  /** The values of `KeyboardEvent.key` the onKeyUp switch has a case for. */
  const ArrowKeys: set<string> := {"ArrowDown", "ArrowUp", "ArrowLeft", "ArrowRight"}

  /**
   * The sheet's onKeyUp handler. `rowCount` is `data.length`, and the source
   * compares the column index against it as well as the row index; a key
   * without a case in the switch does nothing.
   */
  function KeyUp(rowCount: nat, sel: Selection, key: string): (r: Selection)
    ensures sel.None? ==> r.None?
    ensures sel.Some? ==> r.Some? && (r.value == sel.value || Adjacent(sel.value, r.value))
  {
    match sel
    case None => None
    case Some(c) =>
      if key == "ArrowDown" then
        if c.row < rowCount - 1 then Some(Coord(c.row + 1, c.column)) else sel
      else if key == "ArrowUp" then
        if c.row > 0 then Some(Coord(c.row - 1, c.column)) else sel
      else if key == "ArrowLeft" then
        if c.column > 0 then Some(Coord(c.row, c.column - 1)) else sel
      else if key == "ArrowRight" then
        if c.column < rowCount - 1 then Some(Coord(c.row, c.column + 1)) else sel
      else sel
  }

  /**
   * The onClick handler of cell (i, j): deselect it if it is selected, select
   * it otherwise. Either way the selection changes, to nothing or to (i, j).
   */
  function Click(sel: Selection, i: nat, j: nat): (r: Selection)
    ensures r != sel
    ensures r == None || r == Some(Coord(i, j))
  {
    if sel == Some(Coord(i, j)) then None else Some(Coord(i, j))
  }

  /** Every row of `data` has `columns` cells. */
  predicate IsRectangular<T>(data: seq<seq<T>>, columns: nat) {
    forall i :: 0 <= i < |data| ==> |data[i]| == columns
  }

  /** `data` has as many columns as rows. */
  predicate IsSquare<T>(data: seq<seq<T>>) {
    IsRectangular(data, |data|)
  }

  /** (i, j) names a cell of `data`. */
  predicate IsCell<T>(data: seq<seq<T>>, i: nat, j: nat) {
    i < |data| && j < |data[i]|
  }

  /** Nothing is selected, or the selection names a cell of `data`. */
  predicate InGrid<T>(data: seq<seq<T>>, sel: Selection) {
    sel.Some? ==> IsCell(data, sel.value.row, sel.value.column)
  }

  /** The coordinate one step away from `c` in the direction of an arrow key, as integers. */
  function Neighbour(c: Coord, key: string): (t: (int, int)) {
    if key == "ArrowDown" then (c.row + 1, c.column)
    else if key == "ArrowUp" then (c.row - 1, c.column)
    else if key == "ArrowLeft" then (c.row, c.column - 1)
    else if key == "ArrowRight" then (c.row, c.column + 1)
    else (c.row, c.column)
  }

  /** Without a selection, no key creates one. */
  lemma ArrowsNeverSelect(rowCount: nat, key: string)
    ensures KeyUp(rowCount, None, key) == None
  {
  }

  /** A key without a case in the switch leaves the selection as it is. */
  lemma OtherKeysIgnored(rowCount: nat, sel: Selection, key: string)
    requires key !in ArrowKeys
    ensures KeyUp(rowCount, sel, key) == sel
  {
  }

  /**
   * ArrowDown and ArrowUp keep the column; the row grows by one exactly when
   * it is below `rowCount - 1`, and shrinks by one exactly when it is above 0;
   * otherwise the selection stays.
   */
  lemma DownAndUp(rowCount: nat, c: Coord)
    ensures KeyUp(rowCount, Some(c), "ArrowDown").Some?
    ensures KeyUp(rowCount, Some(c), "ArrowDown").value.column == c.column
    ensures KeyUp(rowCount, Some(c), "ArrowDown").value.row == if c.row + 1 < rowCount then c.row + 1 else c.row
    ensures KeyUp(rowCount, Some(c), "ArrowUp").Some?
    ensures KeyUp(rowCount, Some(c), "ArrowUp").value.column == c.column
    ensures KeyUp(rowCount, Some(c), "ArrowUp").value.row == if c.row > 0 then c.row - 1 else c.row
  {
  }

  /**
   * ArrowLeft and ArrowRight keep the row; the column shrinks by one exactly
   * when it is above 0, and grows by one exactly when it is below
   * `rowCount - 1` (the number of rows, as the source has it).
   */
  lemma LeftAndRight(rowCount: nat, c: Coord)
    ensures KeyUp(rowCount, Some(c), "ArrowLeft").Some?
    ensures KeyUp(rowCount, Some(c), "ArrowLeft").value.row == c.row
    ensures KeyUp(rowCount, Some(c), "ArrowLeft").value.column == if c.column > 0 then c.column - 1 else c.column
    ensures KeyUp(rowCount, Some(c), "ArrowRight").Some?
    ensures KeyUp(rowCount, Some(c), "ArrowRight").value.row == c.row
    ensures KeyUp(rowCount, Some(c), "ArrowRight").value.column == if c.column + 1 < rowCount then c.column + 1 else c.column
  {
  }

  /**
   * Clamped navigation on an n-by-n grid: from a cell of the grid, an arrow
   * key selects the neighbour in its direction when that neighbour is a cell
   * of the grid, and otherwise keeps the selection; any other key keeps it.
   */
  lemma ClampedOnSquare(n: nat, c: Coord, key: string)
    requires c.row < n && c.column < n
    ensures var t := Neighbour(c, key);
      KeyUp(n, Some(c), key) ==
        if key in ArrowKeys && 0 <= t.0 < n && 0 <= t.1 < n then Some(Coord(t.0, t.1)) else Some(c)
  {
  }

  /** On a square matrix, no key takes a selection out of the matrix. */
  lemma KeyUpStaysInGrid<T>(data: seq<seq<T>>, sel: Selection, key: string)
    requires IsSquare(data) && InGrid(data, sel)
    ensures InGrid(data, KeyUp(|data|, sel, key))
  {
  }

  /** A click selects the clicked cell, unless it was the selected one: then nothing is selected. */
  lemma ClickToggles(sel: Selection, i: nat, j: nat)
    ensures Click(sel, i, j) == None <==> sel == Some(Coord(i, j))
    ensures Click(sel, i, j) != None ==> Click(sel, i, j) == Some(Coord(i, j))
  {
  }

  /**
   * Clicking the same cell twice restores the selection exactly when nothing
   * or that very cell was selected; from any other selection it ends unselected.
   */
  lemma ClickTwice(sel: Selection, i: nat, j: nat)
    ensures Click(Click(sel, i, j), i, j) == sel <==> sel == None || sel == Some(Coord(i, j))
    ensures Click(Click(None, i, j), i, j) == None
  {
  }

  /** Clicking a cell of `data` leaves the selection in the grid. */
  lemma ClickStaysInGrid<T>(data: seq<seq<T>>, sel: Selection, i: nat, j: nat)
    requires InGrid(data, sel) && IsCell(data, i, j)
    ensures InGrid(data, Click(sel, i, j))
  {
  }

  // The right-arrow bound, as written and as intended.

  /** With three rows of two cells, ArrowRight from the last cell of a row selects a cell that does not exist. */
  lemma RightArrowLeavesNarrowRow()
    ensures var data := [[0, 0], [0, 0], [0, 0]];
      InGrid(data, Some(Coord(0, 1))) &&
      KeyUp(|data|, Some(Coord(0, 1)), "ArrowRight") == Some(Coord(0, 2)) &&
      !InGrid(data, KeyUp(|data|, Some(Coord(0, 1)), "ArrowRight"))
  {
  }

  /** With two rows of three cells, ArrowRight cannot reach the last column. */
  lemma RightArrowBlockedInWideRow()
    ensures var data := [[0, 0, 0], [0, 0, 0]];
      IsCell(data, 0, 2) &&
      KeyUp(|data|, Some(Coord(0, 1)), "ArrowRight") == Some(Coord(0, 1))
  {
  }

  /** The onKeyUp handler with ArrowRight bounded by the column count. */
  function KeyUpByColumns(rowCount: nat, columnCount: nat, sel: Selection, key: string): (r: Selection) {
    match sel
    case None => None
    case Some(c) =>
      if key == "ArrowRight" then
        if c.column < columnCount - 1 then Some(Coord(c.row, c.column + 1)) else sel
      else KeyUp(rowCount, sel, key)
  }

  /**
   * Clamped navigation on an R-by-C grid: an arrow key selects the
   * neighbour in its direction when it is a cell, and otherwise keeps the
   * selection.
   */
  lemma ClampedByColumns(rowCount: nat, columnCount: nat, c: Coord, key: string)
    requires c.row < rowCount && c.column < columnCount
    ensures var t := Neighbour(c, key);
      KeyUpByColumns(rowCount, columnCount, Some(c), key) ==
        if key in ArrowKeys && 0 <= t.0 < rowCount && 0 <= t.1 < columnCount
        then Some(Coord(t.0, t.1)) else Some(c)
  {
  }

  /** On every rectangular matrix, the corrected handler keeps the selection in the grid. */
  lemma KeyUpByColumnsStaysInGrid<T>(data: seq<seq<T>>, columns: nat, sel: Selection, key: string)
    requires IsRectangular(data, columns) && InGrid(data, sel)
    ensures InGrid(data, KeyUpByColumns(|data|, columns, sel, key))
  {
  }

  /** On a square matrix the corrected handler and the one as written agree. */
  lemma KeyUpByColumnsAgreesOnSquare(n: nat, sel: Selection, key: string)
    ensures KeyUpByColumns(n, n, sel, key) == KeyUp(n, sel, key)
  {
  }
}
