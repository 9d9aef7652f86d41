/**
 * A sheet session: the host dispatches events one at a time, each handled to
 * completion, and the two callbacks the hook is given are recorded, in call
 * order, in a log. This gives the effect of any sequence of events.
 */
module Session {
  import opened Wrappers
  import opened Navigation
  import opened Bindings

  /** What the host can dispatch: onKeyUp on the sheet, onClick, onBlur and onContextMenu on a cell. */
  datatype Event =
    | KeyUpEvent(key: string)
    | ClickEvent(row: nat, column: nat)
    | BlurEvent(text: Option<string>, row: nat, column: nat)
    | ContextMenuEvent

  /** A call of the hook's callbacks: `onCellUpdated(text, row, column)` or `onContextMenu(ev)`. */
  datatype Call = CellUpdated(text: Option<string>, row: nat, column: nat) | ContextMenu

  datatype State = State(selected: Selection, calls: seq<Call>)

  /** A new session: nothing selected, no callback called. */
  const Initial: State := State(None, [])

  /** The effect of one event; `rowCount` is `data.length`. */
  function Step(rowCount: nat, hasContextMenu: bool, s: State, e: Event): (r: State)
    ensures s.calls <= r.calls && |r.calls| <= |s.calls| + 1
    ensures (e.BlurEvent? || e.ContextMenuEvent?) ==> r.selected == s.selected
    ensures (e.KeyUpEvent? || e.ClickEvent?) ==> r.calls == s.calls
  {
    match e
    case KeyUpEvent(key) => State(KeyUp(rowCount, s.selected, key), s.calls)
    case ClickEvent(i, j) => State(Click(s.selected, i, j), s.calls)
    case BlurEvent(text, i, j) => State(s.selected, s.calls + [CellUpdated(text, i, j)])
    case ContextMenuEvent => State(s.selected, if hasContextMenu then s.calls + [ContextMenu] else s.calls)
  }

  /** The effect of a sequence of events, first to last. */
  function Replay(rowCount: nat, hasContextMenu: bool, s: State, events: seq<Event>): (r: State)
    decreases |events|
  {
    if |events| == 0 then s else Replay(rowCount, hasContextMenu, Step(rowCount, hasContextMenu, s, events[0]), events[1..])
  }

  /** Cell events come from the handlers of a cell of `data`, so they name one. */
  predicate OnCell<T>(data: seq<seq<T>>, e: Event) {
    match e
    case ClickEvent(i, j) => IsCell(data, i, j)
    case BlurEvent(_, i, j) => IsCell(data, i, j)
    case _ => true
  }

  /** The events that can change the selection: key presses and clicks. */
  function SelectionEvents(events: seq<Event>): (r: seq<Event>)
    ensures |r| <= |events|
    ensures forall k :: 0 <= k < |r| ==> r[k].KeyUpEvent? || r[k].ClickEvent?
  {
    if |events| == 0 then []
    else if events[0].KeyUpEvent? || events[0].ClickEvent? then [events[0]] + SelectionEvents(events[1..])
    else SelectionEvents(events[1..])
  }

  /**
   * On a square matrix, whatever the events, a selection that names a cell
   * keeps naming a cell.
   */
  lemma {:induction false} ReplayStaysInGrid<T>(data: seq<seq<T>>, hasContextMenu: bool, s: State, events: seq<Event>)
    requires IsSquare(data) && InGrid(data, s.selected)
    requires forall k :: 0 <= k < |events| ==> OnCell(data, events[k])
    ensures InGrid(data, Replay(|data|, hasContextMenu, s, events).selected)
    decreases |events|
  {
    if |events| > 0 {
      var s' := Step(|data|, hasContextMenu, s, events[0]);
      match events[0] {
        case KeyUpEvent(key) => KeyUpStaysInGrid(data, s.selected, key);
        case ClickEvent(i, j) => ClickStaysInGrid(data, s.selected, i, j);
        case BlurEvent(_, _, _) =>
        case ContextMenuEvent =>
      }
      ReplayStaysInGrid(data, hasContextMenu, s', events[1..]);
    }
  }

  /** Without clicks nothing gets selected: arrow keys only move an existing selection. */
  lemma {:induction false} NoClickNoSelection(rowCount: nat, hasContextMenu: bool, s: State, events: seq<Event>)
    requires s.selected == None
    requires forall k :: 0 <= k < |events| ==> !events[k].ClickEvent?
    ensures Replay(rowCount, hasContextMenu, s, events).selected == None
    decreases |events|
  {
    if |events| > 0 {
      NoClickNoSelection(rowCount, hasContextMenu, Step(rowCount, hasContextMenu, s, events[0]), events[1..]);
    }
  }

  /** The selection after a sequence of events depends only on its key presses and clicks. */
  lemma {:induction false} SelectionIgnoresBlurAndContextMenu(rowCount: nat, hasContextMenu: bool, s: State, events: seq<Event>)
    ensures Replay(rowCount, hasContextMenu, s, events).selected ==
            Replay(rowCount, hasContextMenu, State(s.selected, []), SelectionEvents(events)).selected
    decreases |events|
  {
    if |events| > 0 {
      var s' := Step(rowCount, hasContextMenu, s, events[0]);
      SelectionIgnoresBlurAndContextMenu(rowCount, hasContextMenu, s', events[1..]);
      if events[0].KeyUpEvent? || events[0].ClickEvent? {
        var t := State(s.selected, []);
        var t' := Step(rowCount, hasContextMenu, t, events[0]);
        assert SelectionEvents(events)[0] == events[0];
        assert SelectionEvents(events)[1..] == SelectionEvents(events[1..]);
        SelectionIgnoresBlurAndContextMenu(rowCount, hasContextMenu, State(t'.selected, []), events[1..]);
        ReplayKeepsSelectionOfAnyLog(rowCount, hasContextMenu, t'.selected, [], t'.calls, SelectionEvents(events[1..]));
      }
    }
  }

  /** The log does not influence the selection. */
  lemma {:induction false} ReplayKeepsSelectionOfAnyLog(rowCount: nat, hasContextMenu: bool, sel: Selection,
                                                       log: seq<Call>, log': seq<Call>, events: seq<Event>)
    ensures Replay(rowCount, hasContextMenu, State(sel, log), events).selected ==
            Replay(rowCount, hasContextMenu, State(sel, log'), events).selected
    decreases |events|
  {
    if |events| > 0 {
      var a := Step(rowCount, hasContextMenu, State(sel, log), events[0]);
      var b := Step(rowCount, hasContextMenu, State(sel, log'), events[0]);
      ReplayKeepsSelectionOfAnyLog(rowCount, hasContextMenu, a.selected, a.calls, b.calls, events[1..]);
    }
  }

  /** The callback log only grows: calls already made stay made, in their order. */
  lemma {:induction false} CallsOnlyGrow(rowCount: nat, hasContextMenu: bool, s: State, events: seq<Event>)
    ensures s.calls <= Replay(rowCount, hasContextMenu, s, events).calls
    decreases |events|
  {
    if |events| > 0 {
      var s' := Step(rowCount, hasContextMenu, s, events[0]);
      CallsOnlyGrow(rowCount, hasContextMenu, s', events[1..]);
    }
  }

  /** Each blur adds exactly the one call `onCellUpdated(text, row, column)` and keeps the selection. */
  lemma BlurCommitsOnce(rowCount: nat, hasContextMenu: bool, s: State, text: Option<string>, i: nat, j: nat)
    ensures Replay(rowCount, hasContextMenu, s, [BlurEvent(text, i, j)]) == State(s.selected, s.calls + [CellUpdated(text, i, j)])
  {
  }

  /**
   * On a 3-by-3 matrix: clicking (0, 0) activates that cell alone; ArrowDown
   * moves the active cell to (1, 0) and ArrowRight to (1, 1); clicking
   * (1, 1) again leaves no cell active. ArrowRight from (1, 2) stays put.
   */
  lemma ThreeByThreeWalk<T>(data: seq<seq<T>>, hasContextMenu: bool)
    requires |data| == 3 && IsSquare(data)
    ensures var s1 := Step(3, hasContextMenu, Initial, ClickEvent(0, 0));
      var s2 := Step(3, hasContextMenu, s1, KeyUpEvent("ArrowDown"));
      var s3 := Step(3, hasContextMenu, s2, KeyUpEvent("ArrowRight"));
      var s4 := Step(3, hasContextMenu, s3, ClickEvent(1, 1));
      Replay(3, hasContextMenu, Initial,
             [ClickEvent(0, 0), KeyUpEvent("ArrowDown"), KeyUpEvent("ArrowRight"), ClickEvent(1, 1)]) == s4 &&
      s1.selected == Some(Coord(0, 0)) && ActiveCount(Rows(data, s1.selected, hasContextMenu)) == 1 &&
      Rows(data, s1.selected, hasContextMenu)[0].cells[0].isActive &&
      s2.selected == Some(Coord(1, 0)) && ActiveCount(Rows(data, s2.selected, hasContextMenu)) == 1 &&
      Rows(data, s2.selected, hasContextMenu)[1].cells[0].isActive &&
      s3.selected == Some(Coord(1, 1)) && ActiveCount(Rows(data, s3.selected, hasContextMenu)) == 1 &&
      Rows(data, s3.selected, hasContextMenu)[1].cells[1].isActive &&
      s4 == Initial && ActiveCount(Rows(data, s4.selected, hasContextMenu)) == 0
    ensures KeyUp(3, Some(Coord(1, 2)), "ArrowRight") == Some(Coord(1, 2))
  {
    assert |data[0]| == 3 && |data[1]| == 3;
    ExactlyOneActive(data, Some(Coord(0, 0)), hasContextMenu);
    ExactlyOneActive(data, Some(Coord(1, 0)), hasContextMenu);
    ExactlyOneActive(data, Some(Coord(1, 1)), hasContextMenu);
    ExactlyOneActive(data, None, hasContextMenu);
  }
}
