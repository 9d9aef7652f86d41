# react-sheet: the `useSheet` engine

A model of the sheet engine of react-sheet, the `useSheet` hook. Given a
matrix of values, the hook keeps one optional selected cell. Arrow keys on the
sheet move the selection and stop at the edges. Clicking a cell toggles its
selection. A cell that loses focus reports its text to the `onCellUpdated`
callback. From the matrix and the selection the hook derives the attribute
bundles the renderer spreads onto the grid, its rows and its cells.

The project has six modules:

- `Wrappers` (wrappers.dfy): `Option`. It stands for `null`, both in the selection and in a cell's `textContent`.
- `Keys` (keys.dfy): the React keys `row${i}` and `cell${i}:${j}`. It includes the decimal rendering of an index, parsers that read a key back, and proofs that every key reads back and that keys are unique.
- `Navigation` (navigation.dfy): the selection, with the two handlers that change it as pure transitions. `KeyUp` is the sheet's `onKeyUp`. `Click` is a cell's `onClick`. The module also holds a clamped-navigation characterisation, the bounds invariant on square matrices, and the right-arrow finding below.
- `Bindings` (bindings.dfy): the derived `rows`. `data.map` becomes a sequence comprehension. The cell `reduce` becomes a left fold with an accumulator. It also derives the sheet-level layout record and proves that its row template matches the rows. It proves the shape, the values, the `isActive` flag, that exactly one cell is active, and that keys are unique.
- `Session` (session.dfy): any serialized sequence of host events, replayed. Callback calls go into a log. It proves the bounds invariant over whole event sequences, that blur and context-menu events do not affect the selection, that the log is append-only, and a walk on a 3 by 3 matrix.
- `UseSheet` (sheet.dfy): class `Sheet`. Its fields are `selected` (the hook's `selectedCell` state) and `calls` (the callback log). Its methods are the four handlers, each proved equal to the corresponding transition. `CurrentRows` is the `rows` the hook returns for the current state.

Each `setSelectedCell(updater)` call is modelled as one atomic transition from the selection before the event to the selection after it. The source tests its guards on the render's `selectedCell` and then applies a functional updater. Events are handled one at a time, so both read the same value.

## Model

| member | source | states |
|---|---|---|
| Keys.ParseDecimalInvertsDecimal | src/hooks/useSheet.ts:136 | reading back the decimal text of an index interpolated into a key gives the index again |
| Keys.DecimalInjective | src/hooks/useSheet.ts:136 | two indices have the same decimal text exactly when they are equal |
| Keys.RowKey | src/hooks/useSheet.ts:158 | the row key is `row` followed by the decimal text of the row index |
| Keys.CellKey | src/hooks/useSheet.ts:136 | the cell key is `cell`, the decimal row index, `:` and the decimal column index |
| Keys.RowKeyReadsBack | src/hooks/useSheet.ts:158 | a row key parses back to the row index it was made from |
| Keys.CellKeyReadsBack | src/hooks/useSheet.ts:136 | a cell key, split at its first `:`, parses back to the coordinate it was made from |
| Keys.RowKeyInjective | src/hooks/useSheet.ts:158 | `row${i}` keys are equal exactly when the row indices are |
| Keys.CellKeyInjective | src/hooks/useSheet.ts:136 | `cell${i}:${j}` keys are equal exactly when both coordinates are |
| Navigation.KeyUp | src/hooks/useSheet.ts:58-121 | the onKeyUp switch: each arrow case moves an existing selection one step when its guard holds (ArrowRight's guard uses `data.length`), and other keys do nothing. The result is empty when the selection was, and otherwise is the old cell or a cell next to it in its row or column |
| Navigation.Click | src/hooks/useSheet.ts:142-150 | the onClick ternary: the result is nothing when (i, j) was selected, and (i, j) otherwise. Every click changes the selection |
| Navigation.ArrowsNeverSelect | src/hooks/useSheet.ts:58-121 | with nothing selected, every key leaves nothing selected (each case is guarded by `selectedCell &&`) |
| Navigation.OtherKeysIgnored | src/hooks/useSheet.ts:59-120 | a key with no case in the switch leaves the selection unchanged |
| Navigation.DownAndUp | src/hooks/useSheet.ts:60-89 | ArrowDown and ArrowUp keep the column. Down adds one to the row exactly when row < data.length - 1. Up subtracts one exactly when row > 0. Otherwise the row stays |
| Navigation.LeftAndRight | src/hooks/useSheet.ts:90-119 | ArrowLeft and ArrowRight keep the row. Left subtracts one from the column exactly when column > 0. Right adds one exactly when column < data.length - 1, which is the row count. Otherwise the column stays |
| Navigation.ClampedOnSquare | src/hooks/useSheet.ts:58-121 | on an n by n grid, an arrow key selects the neighbour in its direction when that neighbour is in the grid, and otherwise keeps the selection. Other keys keep it |
| Navigation.KeyUpStaysInGrid | src/hooks/useSheet.ts:58-121 | on a square matrix, no key takes a selection that names a cell outside the matrix |
| Navigation.ClickToggles | src/hooks/useSheet.ts:142-150 | clicking (i, j) clears the selection exactly when (i, j) was selected. Otherwise it selects (i, j) |
| Navigation.ClickTwice | src/hooks/useSheet.ts:142-150 | two clicks on the same cell restore the selection exactly when it was empty or was that cell. From "unselected" they return to unselected |
| Navigation.ClickStaysInGrid | src/hooks/useSheet.ts:142-150 | clicking a cell of the matrix keeps the selection inside the matrix |
| Navigation.RightArrowLeavesNarrowRow | src/hooks/useSheet.ts:106 | counterexample for a 3 by 2 matrix: ArrowRight from (0, 1) selects (0, 2), which is not a cell |
| Navigation.RightArrowBlockedInWideRow | src/hooks/useSheet.ts:106 | counterexample for a 2 by 3 matrix: ArrowRight from (0, 1) stays, although (0, 2) is a cell |
| Navigation.ClampedByColumns | src/hooks/useSheet.ts:105-119 | corrected handler on an R by C grid: it moves to the neighbour exactly when the neighbour is a cell |
| Navigation.KeyUpByColumnsStaysInGrid | src/hooks/useSheet.ts:105-119 | corrected handler: on every rectangular matrix the selection stays inside the matrix |
| Navigation.KeyUpByColumnsAgreesOnSquare | src/hooks/useSheet.ts:106 | on square matrices, the corrected handler and the one as written are the same transition |
| Bindings.MakeCell | src/hooks/useSheet.ts:130-153 | the cell for value v at (i, j) is active exactly when the selection is (i, j). It keeps v, has key `cell${i}:${j}`, is bound to (i, j), is editable and carries the context-menu callback if one was given |
| Bindings.ReduceCells | src/hooks/useSheet.ts:126-155 | the reduce keeps its accumulator as a prefix and appends one cell per remaining element, in order, each built from that element and its index |
| Bindings.RowCells | src/hooks/useSheet.ts:126-155 | row i has exactly one cell per element of `data[i]`, in order, and cell j is built from `data[i][j]` at (i, j) |
| Bindings.Rows | src/hooks/useSheet.ts:125-164 | the `data.map` over rows: one row per row of `data`, with one cell per element of that row |
| Bindings.SheetLayout | src/hooks/useSheet.ts:53-57 | the sheet attributes: a row template of `data.length` rows and `tabIndex` -1 (line 122) |
| Bindings.LayoutMatchesRows | src/hooks/useSheet.ts:53-164 | the sheet's row template declares as many rows as `rows` has. Every row's column template is `data.length`, which equals the row's cell count on a square matrix |
| Bindings.RowsShape | src/hooks/useSheet.ts:125-164 | rows has data.length entries. Row i has one cell per element of data[i] and the key `row${i}`. Each cell keeps its value, is bound to its own coordinate, is editable and has the key `cell${i}:${j}`. The column hint is data.length |
| Bindings.ActiveIffSelected | src/hooks/useSheet.ts:131-133 | a cell is active exactly when its coordinate equals the selection |
| Bindings.AtMostOneActive | src/hooks/useSheet.ts:131-133 | no two distinct cells are active at once, and no cell is active when nothing is selected |
| Bindings.ExactlyOneActive | src/hooks/useSheet.ts:125-155 | the number of active cells is 1 when the selection names a cell of the matrix, and 0 otherwise |
| Bindings.KeysUnique | src/hooks/useSheet.ts:136-158 | distinct rows have distinct keys, and distinct cells have distinct keys |
| Session.Step | src/hooks/useSheet.ts:58-151 | one event: a key press or a click changes only the selection. A blur or context menu changes only the log. A step appends at most one call and never removes one |
| Session.ReplayStaysInGrid | src/hooks/useSheet.ts:58-150 | on a square matrix, any sequence of key, click, blur and context-menu events on its cells keeps an in-grid selection in the grid |
| Session.NoClickNoSelection | src/hooks/useSheet.ts:58-121 | from "unselected", any event sequence without a click stays unselected |
| Session.SelectionIgnoresBlurAndContextMenu | src/hooks/useSheet.ts:139-151 | the selection after any events equals the one after replaying only their key presses and clicks |
| Session.CallsOnlyGrow | src/hooks/useSheet.ts:139-151 | the callback log only grows: earlier calls stay, in order |
| Session.BlurCommitsOnce | src/hooks/useSheet.ts:139-141 | a blur on (i, j) with text t adds exactly one call `onCellUpdated(t, i, j)` and keeps the selection |
| Session.ThreeByThreeWalk | src/hooks/useSheet.ts:58-150 | on a 3 by 3 matrix: click (0,0), Down, Right and click (1,1) select (0,0), (1,0) and (1,1) as the single active cell, in turn, and end unselected. Right from (1,2) stays |
| UseSheet.Sheet.constructor | src/hooks/useSheet.ts:47-50 | a new hook starts with no selection and no callback calls |
| UseSheet.Sheet.OnKeyUp | src/hooks/useSheet.ts:58-121 | the new selection is `KeyUp(data.length, old selection, key)`. The log is unchanged. The in-grid invariant on square matrices is kept |
| UseSheet.Sheet.OnClick | src/hooks/useSheet.ts:142-150 | the new selection is the toggle `Click(old selection, i, j)`. The log is unchanged |
| UseSheet.Sheet.OnBlur | src/hooks/useSheet.ts:139-141 | appends exactly `onCellUpdated(text, i, j)` to the log, whatever is selected, and keeps the selection |
| UseSheet.Sheet.OnContextMenu | src/hooks/useSheet.ts:151 | forwards to the caller's callback if there is one, and is a no-op otherwise. The selection is unchanged |
| UseSheet.Sheet.CurrentRows | src/hooks/useSheet.ts:125-164 | the current rows have data.length entries. Each cell keeps its value. Cell (i, j) is active exactly when it is the selection. Exactly one cell is active when the selection names a cell |

## Findings

| source | as written | input that shows it | evidently intended | confidence | as-written member | corrected member |
|---|---|---|---|---|---|---|
| src/hooks/useSheet.ts:106 | ArrowRight moves only while `column < data.length - 1`, which bounds the column by the row count | 3 rows of 2 cells, selection (0, 1): ArrowRight selects (0, 2), which is not a cell. 2 rows of 3 cells, selection (0, 1): ArrowRight cannot reach (0, 2) | bound the column by the column count C of an R×C matrix, `column < C - 1` | medium, not executed; the application only builds square matrices, where the two agree | Navigation.RightArrowLeavesNarrowRow | Navigation.KeyUpByColumnsStaysInGrid |

The class `Sheet` keeps the bound as written (`KeyUp`), because it models the hook as it is. The corrected `KeyUpByColumns` is proved to keep every rectangular matrix's selection in bounds. It is proved to agree with `KeyUp` on square matrices (`KeyUpByColumnsAgreesOnSquare`), so every invariant stated for square matrices holds for both. The row layout hint has the same mix-up: `gridTemplateColumns` uses `data.length` at src/hooks/useSheet.ts:161. `RowsShape` records it as written. The row-count bound is treated here as a defect; the class keeps it because the hook has it.

## Left out

- src/App.tsx is not part of this model. It is page composition: JSX, CSS class names and `console.log` callbacks.
- src/helpers/generateData.ts is not part of this model. It fills the matrix with `Math.random()` values. The engine takes any matrix as a parameter, and the bounds results assume it is square, as `generateMatrix(n)` makes it.
- React state machinery (`useState`) is left out. The selection is a field of `Sheet`. Re-rendering is a call of `CurrentRows`.
- Event objects are left out. A key event is its `key` string. A blur event is its `textContent`, as `Option<string>`. The context-menu event is left out, since the engine only forwards it.
- The callbacks `onCellUpdated` and `onContextMenu` are foreign code. Their calls are appended to a log. Exceptions thrown by a callback are not modelled.
- The `style` objects are reduced to the number in their `repeat(n, 1fr)` templates (`rowHint`, `columnHint`). `display: "grid"`, the style strings themselves and `suppressContentEditableWarning` are left out. `contentEditable` (always true) and `tabIndex` (-1) are kept.
- Handler identity is left out. Each cell's `onClick`/`onBlur` closures are represented by the coordinate they capture (`CellAttributes.at`). The sheet's `onKeyUp` is the method `Sheet.OnKeyUp`.
- UseSheet.Sheet.OnClick: requires (i, j) to be a cell of the matrix. The source only creates this handler on cells of `data`, so no other click can reach it.
- A change of matrix is outside the model: a `Sheet` holds one fixed `data`. In the source nothing resets `selectedCell` when `data` changes.
- The order in which the host dispatches a blur and a click on another cell is outside the model. Each event is one atomic step, in whatever order the host chooses.
- Indices are unbounded naturals. JavaScript numbers are doubles, exact for any index a grid can have.
- The source checks neither the coordinates nor the shape of the matrix, and neither does the model. Ragged matrices are accepted, as in the source.
