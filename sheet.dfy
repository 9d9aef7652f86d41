/**
 * The `useSheet` hook as an object: the selection it keeps between renders,
 * the handlers its attribute bundles carry, and the bundles it returns. The
 * commit and context-menu callbacks it is given are recorded in `calls`.
 */
module UseSheet {
  import opened Wrappers
  import opened Navigation
  import opened Bindings
  import opened Session

  class Sheet<T> {
    /** The matrix the hook was given. */
    const data: seq<seq<T>>
    /** Whether an onContextMenu callback was given. */
    const hasContextMenu: bool
    /** `selectedCell` */
    var selected: Selection
    /** The calls made so far to onCellUpdated and onContextMenu, oldest first. */
    var calls: seq<Call>

    /** On a square matrix, the only kind the application builds, the selection names a cell or is empty. */
    ghost predicate Valid()
      reads this
    {
      IsSquare(data) ==> InGrid(data, selected)
    }

    /** The session state: the selection and the log. */
    function Snapshot(): State
      reads this
    {
      State(selected, calls)
    }

    /** A fresh hook for `data`: nothing is selected. */
    constructor (data: seq<seq<T>>, hasContextMenu: bool)
      ensures this.data == data && this.hasContextMenu == hasContextMenu
      ensures selected == None && calls == []
      ensures Valid()
    {
      this.data := data;
      this.hasContextMenu := hasContextMenu;
      selected := None;
      calls := [];
    }

    /** The sheet's onKeyUp handler for a key named `key`. */
    method OnKeyUp(key: string)
      requires Valid()
      modifies this
      ensures Valid()
      ensures selected == KeyUp(|data|, old(selected), key) && calls == old(calls)
      ensures Snapshot() == Step(|data|, hasContextMenu, old(Snapshot()), KeyUpEvent(key))
    {
      ghost var before := selected;
      if key == "ArrowDown" {
        if selected.Some? && selected.value.row < |data| - 1 {
          selected := Some(Coord(selected.value.row + 1, selected.value.column));
        }
      } else if key == "ArrowUp" {
        if selected.Some? && selected.value.row > 0 {
          selected := Some(Coord(selected.value.row - 1, selected.value.column));
        }
      } else if key == "ArrowLeft" {
        if selected.Some? && selected.value.column > 0 {
          selected := Some(Coord(selected.value.row, selected.value.column - 1));
        }
      } else if key == "ArrowRight" {
        if selected.Some? && selected.value.column < |data| - 1 {
          selected := Some(Coord(selected.value.row, selected.value.column + 1));
        }
      }
      if IsSquare(data) {
        KeyUpStaysInGrid(data, before, key);
      }
    }

    /** The onClick handler of cell (i, j); it exists only on the cells of `data`. */
    method OnClick(i: nat, j: nat)
      requires Valid() && IsCell(data, i, j)
      modifies this
      ensures Valid()
      ensures selected == Click(old(selected), i, j) && calls == old(calls)
      ensures Snapshot() == Step(|data|, hasContextMenu, old(Snapshot()), ClickEvent(i, j))
    {
      if selected.Some? && selected.value.row == i && selected.value.column == j {
        selected := None;
      } else {
        selected := Some(Coord(i, j));
      }
    }

    /** The onBlur handler of cell (i, j): commits the cell's text content, whatever is selected. */
    method OnBlur(text: Option<string>, i: nat, j: nat)
      requires Valid()
      modifies this
      ensures Valid()
      ensures selected == old(selected) && calls == old(calls) + [CellUpdated(text, i, j)]
      ensures Snapshot() == Step(|data|, hasContextMenu, old(Snapshot()), BlurEvent(text, i, j))
    {
      calls := calls + [CellUpdated(text, i, j)];
    }

    /** A cell's onContextMenu: the caller's callback when there is one, nothing otherwise. */
    method OnContextMenu()
      requires Valid()
      modifies this
      ensures Valid()
      ensures selected == old(selected)
      ensures calls == if hasContextMenu then old(calls) + [ContextMenu] else old(calls)
      ensures Snapshot() == Step(|data|, hasContextMenu, old(Snapshot()), ContextMenuEvent)
    {
      if hasContextMenu {
        calls := calls + [ContextMenu];
      }
    }

    /**
     * The `rows` the hook returns for the current state: a row per row of
     * `data`, each cell carrying its value, and the selected cell, if it is a
     * cell of `data`, as the one active cell.
     */
    function CurrentRows(): (rows: seq<Row<T>>)
      reads this
      ensures |rows| == |data|
      ensures forall i :: 0 <= i < |data| ==> |rows[i].cells| == |data[i]|
      ensures forall i: nat, j: nat :: IsCell(data, i, j) ==>
        rows[i].cells[j].value == data[i][j] &&
        (rows[i].cells[j].isActive <==> selected == Some(Coord(i, j)))
      ensures ActiveCount(rows) == if selected.Some? && IsCell(data, selected.value.row, selected.value.column) then 1 else 0
    {
      ExactlyOneActive(data, selected, hasContextMenu);
      Rows(data, selected, hasContextMenu)
    }
  }
}
