/** The page script's handlers, acting in place on the three globals it
    declares (`table`, `draggedBox`, `stateStack`), here the fields of one
    controller object. Each method is proved to perform exactly one step
    of module Editor, where the properties of the steps are stated. The
    dispatch methods stand for the browser delivering one event to several
    listeners and then firing the timers they set. */
module Controller {
  import opened Text
  import opened Board
  import opened Editor

  class GridEditor {
    var grid: Grid
    var dragged: Option<Pos>
    var stack: seq<Grid>

    /** The fields as one value. */
    function State(): EditorState
      reads this
    {
      EditorState(grid, dragged, stack)
    }

    /** The page after loading: the table from the document, no drag, no
        history. */
    constructor (initial: Grid)
      ensures State() == Init(initial)
    {
      grid := initial;
      dragged := None;
      stack := [];
    }

    /** `saveState`: push a copy of the live table. */
    method SaveState()
      modifies this
      ensures State() == Save(old(State()))
    {
      stack := stack + [grid];
    }

    /** `restoreState`: the snapshot replaces the live table. */
    method RestoreState(snapshot: Grid)
      modifies this
      ensures State() == old(State()).(grid := snapshot)
    {
      grid := snapshot;
    }

    /** The "Add Row" click handler. `colors` are the three colours that
        `getRandomColor` returns for the new boxes, in column order. */
    method AddRow(colors: seq<string>)
      requires |colors| == 3
      modifies this
      ensures State() == Editor.AddRow(old(State()), colors)
    {
      var newRow: Row := [];
      for i := 0 to 3
        invariant newRow == NewRow(|grid|, colors)[..i]
      {
        var boxNumber := |grid| * 100 + i * 100;
        var newBox := Box(boxNumber, DecimalText(boxNumber), colors[i]);
        newRow := newRow + [Some(newBox)];
      }
      assert newRow == NewRow(|grid|, colors);
      grid := grid + [newRow];
      SaveState();
    }

    /** One run of `handleDragStart` on the element at cell `p`. */
    method HandleDragStart(p: Pos)
      modifies this
      ensures State() == Editor.DragStart(old(State()), p)
    {
      if BoxAt(grid, p).Some? {
        dragged := Some(p);
        SaveState();
      }
    }

    /** A drag start reaching `listeners` listeners, each of which runs
        `handleDragStart`. */
    method DispatchDragStart(p: Pos, listeners: nat)
      modifies this
      ensures State() == DragStartEvent(old(State()), p, listeners)
    {
      for i := 0 to listeners
        invariant State() == DragStartEvent(old(State()), p, i)
      {
        HandleDragStart(p);
      }
    }

    /** `handleDragEnd`. */
    method HandleDragEnd()
      modifies this
      ensures State() == DragEnd(old(State()))
    {
      if dragged.Some? {
        dragged := None;
      }
    }

    /** One run of `handleDrop` on the element at cell `target`: the guards,
        and the timer it schedules when they pass. It changes nothing. */
    method HandleDrop(target: Pos) returns (pending: Option<Pending>)
      ensures pending == Editor.HandleDrop(State(), target)
      ensures pending.Some? <==> DropAccepted(State(), target)
    {
      var sourceId := SourceId(State());
      var targetId := IdText(grid, target);
      if sourceId == "" || targetId == "" || sourceId == targetId {
        return None;
      }
      var sourceCell := dragged.value;
      var sourceChild := BoxAt(grid, sourceCell);
      var targetChild := BoxAt(grid, target);
      if sourceChild.None? || targetChild.None? {
        return None;
      }
      return Some(Pending(sourceCell, target, sourceChild, targetChild));
    }

    /** The timer's body: `sourceCell.appendChild(targetChild)`,
        `targetCell.appendChild(sourceChild)`, then `saveState`. */
    method RunTimer(pd: Pending)
      requires InGrid(grid, pd.sourceCell) && InGrid(grid, pd.targetCell)
      modifies this
      ensures State() == Editor.RunTimer(old(State()), pd)
    {
      grid := Put(grid, pd.sourceCell, pd.targetChild);
      grid := Put(grid, pd.targetCell, pd.sourceChild);
      SaveState();
    }

    /** A drop reaching `listeners` listeners: every run of `handleDrop`
        happens first, then the timers they scheduled fire in order. */
    method DispatchDrop(target: Pos, listeners: nat)
      modifies this
      ensures State() == Editor.Drop(old(State()), target, listeners)
    {
      ghost var scheduled := Editor.HandleDrop(State(), target);
      var timers: seq<Pending> := [];
      for i := 0 to listeners
        invariant State() == old(State())
        invariant |timers| == if scheduled.Some? then i else 0
        invariant forall k :: 0 <= k < |timers| ==> scheduled == Some(timers[k])
      {
        var pending := HandleDrop(target);
        if pending.Some? {
          timers := timers + [pending.value];
        }
      }
      for j := 0 to |timers|
        invariant |timers| == 0 ==> State() == old(State())
        invariant |timers| > 0 ==> State() == RunTimers(old(State()), scheduled.value, j)
      {
        RunTimer(timers[j]);
      }
    }

    /** `handleUndo`; `nothingToUndo` stands for the "Nothing to undo."
        alert. */
    method HandleUndo() returns (nothingToUndo: bool)
      modifies this
      ensures nothingToUndo == NothingToUndo(old(State()))
      ensures State() == Editor.Undo(old(State()))
    {
      if |stack| == 0 {
        return true;
      }
      var prevState := stack[|stack| - 1];
      stack := stack[..|stack| - 1];
      RestoreState(prevState);
      return false;
    }
  }
}
