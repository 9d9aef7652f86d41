/**
 * The attribute bundles the sheet hands to its renderer, derived from the
 * matrix and the selection alone: `rows` is `data.map` over the rows, and each
 * row's cells are built by `reduce`, appending one cell at a time to an
 * accumulator.
 */
module Bindings {
  import opened Wrappers
  import opened Navigation
  import opened Keys

  /**
   * A cell's attributes. The onClick and onBlur handlers close over the
   * cell's coordinate, which `at` records; `hasContextMenu` says whether the
   * caller's onContextMenu handler is passed through.
   */
  datatype CellAttributes = CellAttributes(key: string, at: Coord, contentEditable: bool, hasContextMenu: bool)

  datatype Cell<T> = Cell(isActive: bool, value: T, attributes: CellAttributes)

  /** `columnHint` is the n of the row's `gridTemplateColumns: repeat(n, 1fr)`. */
  datatype RowAttributes = RowAttributes(key: string, columnHint: nat)

  datatype Row<T> = Row(attributes: RowAttributes, cells: seq<Cell<T>>)

  /** `rowHint` is the n of the sheet's `gridTemplateRows: repeat(n, 1fr)`. */
  datatype SheetAttributes = SheetAttributes(rowHint: nat, tabIndex: int)

  /**
   * The cell built for value `v` at (i, j): active exactly when (i, j) is the
   * selection, keyed `cell${i}:${j}`, bound to (i, j) and editable.
   */
  function MakeCell<T>(sel: Selection, hasContextMenu: bool, i: nat, j: nat, v: T): (c: Cell<T>)
    ensures c.isActive <==> sel == Some(Coord(i, j))
    ensures c.value == v && c.attributes == CellAttributes(CellKey(i, j), Coord(i, j), true, hasContextMenu)
  {
    Cell(sel.Some? && sel.value.row == i && sel.value.column == j, v,
         CellAttributes(CellKey(i, j), Coord(i, j), true, hasContextMenu))
  }

  /** `r.reduce` over the elements of row i from index `j` on, appending each cell to `acc`. */
  function ReduceCells<T>(r: seq<T>, i: nat, sel: Selection, hasContextMenu: bool, j: nat, acc: seq<Cell<T>>)
    : (cs: seq<Cell<T>>)
    requires j <= |r|
    ensures |cs| == |acc| + |r| - j
    ensures cs[..|acc|] == acc
    ensures forall k :: j <= k < |r| ==> cs[|acc| + k - j] == MakeCell(sel, hasContextMenu, i, k, r[k])
    decreases |r| - j
  {
    if j == |r| then acc
    else
      var acc' := acc + [MakeCell(sel, hasContextMenu, i, j, r[j])];
      var cs := ReduceCells(r, i, sel, hasContextMenu, j + 1, acc');
      assert cs[..|acc|] == cs[..|acc'|][..|acc|] == acc;
      cs
  }

  /** The cells of row i: one per element, in order. */
  function RowCells<T>(r: seq<T>, i: nat, sel: Selection, hasContextMenu: bool): (cs: seq<Cell<T>>)
    ensures |cs| == |r|
    ensures forall j :: 0 <= j < |r| ==> cs[j] == MakeCell(sel, hasContextMenu, i, j, r[j])
  {
    ReduceCells(r, i, sel, hasContextMenu, 0, [])
  }

  /** The `rows` of the hook's result. The column hint is `data.length`, as in the source. */
  function Rows<T>(data: seq<seq<T>>, sel: Selection, hasContextMenu: bool): (rows: seq<Row<T>>)
    ensures |rows| == |data|
    ensures forall i :: 0 <= i < |data| ==> |rows[i].cells| == |data[i]|
  {
    seq(|data|, i requires 0 <= i < |data| =>
      Row(RowAttributes(RowKey(i), |data|), RowCells(data[i], i, sel, hasContextMenu)))
  }

  /** The grid-level attributes: a template of `data.length` rows and `tabIndex: -1`. */
  function SheetLayout<T>(data: seq<seq<T>>): (r: SheetAttributes)
    ensures r.rowHint == |data| && r.tabIndex == -1
  {
    SheetAttributes(|data|, -1)
  }

  /**
   * The sheet's row template declares as many rows as `rows` has. Each row's
   * column template declares as many columns as the row has cells when the
   * matrix is square; otherwise it declares `data.length` (the source's bound).
   */
  lemma LayoutMatchesRows<T>(data: seq<seq<T>>, sel: Selection, hasContextMenu: bool)
    ensures var rows := Rows(data, sel, hasContextMenu);
      SheetLayout(data).rowHint == |rows| &&
      (forall i :: 0 <= i < |rows| ==> rows[i].attributes.columnHint == |data|) &&
      (IsSquare(data) ==> forall i :: 0 <= i < |rows| ==> rows[i].attributes.columnHint == |rows[i].cells|)
  {
  }

  /**
   * `rows` has one row per row of `data` and one cell per element of that
   * row, in order; each cell keeps its value, is bound to its own
   * coordinate and is editable.
   */
  lemma RowsShape<T>(data: seq<seq<T>>, sel: Selection, hasContextMenu: bool)
    ensures var rows := Rows(data, sel, hasContextMenu);
      |rows| == |data| &&
      (forall i :: 0 <= i < |data| ==>
        |rows[i].cells| == |data[i]| &&
        rows[i].attributes == RowAttributes(RowKey(i), |data|)) &&
      (forall i, j :: 0 <= i < |data| && 0 <= j < |data[i]| ==>
        rows[i].cells[j].value == data[i][j] &&
        rows[i].cells[j].attributes == CellAttributes(CellKey(i, j), Coord(i, j), true, hasContextMenu))
  {
  }

  /** A cell is active exactly when its coordinate is the selection. */
  lemma ActiveIffSelected<T>(data: seq<seq<T>>, sel: Selection, hasContextMenu: bool, i: nat, j: nat)
    requires IsCell(data, i, j)
    ensures Rows(data, sel, hasContextMenu)[i].cells[j].isActive <==> sel == Some(Coord(i, j))
  {
  }

  /** At most one cell is active, and none when nothing is selected. */
  lemma AtMostOneActive<T>(data: seq<seq<T>>, sel: Selection, hasContextMenu: bool)
    ensures var rows := Rows(data, sel, hasContextMenu);
      forall i: nat, j: nat, i': nat, j': nat ::
        (IsCell(data, i, j) && IsCell(data, i', j') &&
         rows[i].cells[j].isActive && rows[i'].cells[j'].isActive) ==> i == i' && j == j'
    ensures sel == None ==> forall i: nat, j: nat :: IsCell(data, i, j) ==> !Rows(data, sel, hasContextMenu)[i].cells[j].isActive
  {
  }

  /** The keys of distinct rows differ, and so do the keys of distinct cells. */
  lemma KeysUnique<T>(data: seq<seq<T>>, sel: Selection, hasContextMenu: bool)
    ensures var rows := Rows(data, sel, hasContextMenu);
      (forall i, i' :: 0 <= i < |data| && 0 <= i' < |data| && i != i' ==>
        rows[i].attributes.key != rows[i'].attributes.key) &&
      (forall i: nat, j: nat, i': nat, j': nat :: IsCell(data, i, j) && IsCell(data, i', j') && (i, j) != (i', j') ==>
        rows[i].cells[j].attributes.key != rows[i'].cells[j'].attributes.key)
  {
    var rows := Rows(data, sel, hasContextMenu);
    forall i: nat, i': nat | i < |data| && i' < |data| && i != i'
      ensures rows[i].attributes.key != rows[i'].attributes.key
    {
      RowKeyInjective(i, i');
    }
    forall i: nat, j: nat, i': nat, j': nat | IsCell(data, i, j) && IsCell(data, i', j') && (i, j) != (i', j')
      ensures rows[i].cells[j].attributes.key != rows[i'].cells[j'].attributes.key
    {
      assert rows[i].cells[j].attributes.key == CellKey(i, j);
      assert rows[i'].cells[j'].attributes.key == CellKey(i', j');
      CellKeyInjective(i, j, i', j');
    }
  }

  /** The number of active cells of a row. */
  function ActiveInRow<T>(cells: seq<Cell<T>>): (n: nat)
    ensures n <= |cells|
  {
    if |cells| == 0 then 0
    else ActiveInRow(cells[..|cells| - 1]) + (if cells[|cells| - 1].isActive then 1 else 0)
  }

  /** The number of active cells of the whole sheet. */
  function ActiveCount<T>(rows: seq<Row<T>>): (n: nat) {
    if |rows| == 0 then 0 else ActiveCount(rows[..|rows| - 1]) + ActiveInRow(rows[|rows| - 1].cells)
  }

  /** A row whose only active cell is at `j` (none if `j` is not an index) counts one active cell or none. */
  lemma {:induction false} CountOneInRow<T>(cells: seq<Cell<T>>, j: int)
    requires forall k :: 0 <= k < |cells| ==> (cells[k].isActive <==> k == j)
    ensures ActiveInRow(cells) == if 0 <= j < |cells| then 1 else 0
    decreases |cells|
  {
    if |cells| > 0 {
      CountOneInRow(cells[..|cells| - 1], j);
    }
  }

  /** When every row but row `i` has no active cell, the sheet counts as many as row `i` does. */
  lemma {:induction false} CountOneRow<T>(rows: seq<Row<T>>, i: int)
    requires forall k :: 0 <= k < |rows| && k != i ==> ActiveInRow(rows[k].cells) == 0
    ensures ActiveCount(rows) == if 0 <= i < |rows| then ActiveInRow(rows[i].cells) else 0
    decreases |rows|
  {
    if |rows| > 0 {
      CountOneRow(rows[..|rows| - 1], i);
    }
  }

  /** Exactly one cell is active when the selection names a cell of the matrix, and none otherwise. */
  lemma ExactlyOneActive<T>(data: seq<seq<T>>, sel: Selection, hasContextMenu: bool)
    ensures ActiveCount(Rows(data, sel, hasContextMenu)) ==
      if sel.Some? && IsCell(data, sel.value.row, sel.value.column) then 1 else 0
  {
    var rows := Rows(data, sel, hasContextMenu);
    var ai: int, aj: int := if sel.Some? then sel.value.row else -1, if sel.Some? then sel.value.column else -1;
    forall k | 0 <= k < |rows|
      ensures ActiveInRow(rows[k].cells) == if k == ai && 0 <= aj < |data[k]| then 1 else 0
    {
      CountOneInRow(rows[k].cells, if k == ai then aj else -1);
    }
    CountOneRow(rows, ai);
  }
}
