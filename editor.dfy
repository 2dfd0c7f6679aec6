/** The editor's state and what each event handler does to it, as functions
    from the state before the event to the state after it. The class in
    module Controller runs the same steps in place; the lemmas here state
    what the handlers promise and how undo interacts with them. */
module Editor {
  import opened Text
  import opened Board

  /** The page's three globals: the live table, the box being dragged
      (given by the cell that held it when the drag started) and the undo
      stack, whose top is its last element. */
  datatype EditorState = EditorState(grid: Grid, dragged: Option<Pos>, stack: seq<Grid>)

  /** The state once the page has loaded its initial table. */
  function Init(g: Grid): EditorState {
    EditorState(g, None, [])
  }

  /** `saveState`: push a copy of the live table; nothing else changes. */
  function Save(s: EditorState): (t: EditorState)
    ensures t.grid == s.grid && t.dragged == s.dragged
    ensures |t.stack| == |s.stack| + 1 && t.stack[..|s.stack|] == s.stack && t.stack[|s.stack|] == s.grid
  {
    s.(stack := s.stack + [s.grid])
  }

  /** `n` snapshots of the same table. */
  function Copies(g: Grid, n: nat): seq<Grid> {
    seq(n, _ => g)
  }

  /** The "Add Row" click: append the new row, then save. Exactly one row,
      the new one, is appended, every existing row is kept, the table gains
      exactly the new row's cells, and one snapshot equal to the table after
      the append is pushed. */
  function AddRow(s: EditorState, colors: seq<string>): (t: EditorState)
    requires |colors| == 3
    ensures |t.grid| == |s.grid| + 1 && t.grid[..|s.grid|] == s.grid
    ensures t.grid[|s.grid|] == NewRow(|s.grid|, colors)
    ensures Cells(t.grid) == Cells(s.grid) + NewRow(|s.grid|, colors)
    ensures t.stack == s.stack + [t.grid] && t.dragged == s.dragged
  {
    CellsAppend(s.grid, NewRow(|s.grid|, colors));
    Save(s.(grid := s.grid + [NewRow(|s.grid|, colors)]))
  }

  /** One run of `handleDragStart` on the element at cell `p`: only a box
      starts a drag; its cell is recorded and the unchanged table is saved
      before anything moves. On anything else nothing changes. */
  function DragStart(s: EditorState, p: Pos): (t: EditorState)
    ensures BoxAt(s.grid, p).Some? ==> t == EditorState(s.grid, Some(p), s.stack + [s.grid])
    ensures BoxAt(s.grid, p).None? ==> t == s
  {
    if BoxAt(s.grid, p).Some? then Save(s.(dragged := Some(p))) else s
  }

  /** A drag start that reaches `listeners` listeners, each of which runs
      `handleDragStart` on the same element. */
  function DragStartEvent(s: EditorState, p: Pos, listeners: nat): EditorState
    decreases listeners
  {
    if listeners == 0 then s else DragStart(DragStartEvent(s, p, listeners - 1), p)
  }

  /** Each run on a box pushes the unchanged table once more. */
  lemma {:induction false} DragStartEventSaves(s: EditorState, p: Pos, listeners: nat)
    ensures BoxAt(s.grid, p).Some? && listeners > 0 ==>
      DragStartEvent(s, p, listeners) == EditorState(s.grid, Some(p), s.stack + Copies(s.grid, listeners))
    ensures BoxAt(s.grid, p).None? || listeners == 0 ==> DragStartEvent(s, p, listeners) == s
    decreases listeners
  {
    if listeners > 0 {
      DragStartEventSaves(s, p, listeners - 1);
      if BoxAt(s.grid, p).Some? && listeners > 1 {
        assert Copies(s.grid, listeners - 1) + [s.grid] == Copies(s.grid, listeners);
      }
    }
  }

  /** `handleDragEnd`: the drag slot is emptied and nothing else changes. */
  function DragEnd(s: EditorState): (t: EditorState)
    ensures t.dragged == None && t.grid == s.grid && t.stack == s.stack
  {
    s.(dragged := None)
  }

  /** Running `handleDragEnd` again changes nothing more. */
  lemma DragEndIdempotent(s: EditorState)
    ensures DragEnd(DragEnd(s)) == DragEnd(s)
  {
  }

  /** The drag data read back by the drop handler: the dragged box's id as
      text, or the empty string when no box is being dragged from the table. */
  function SourceId(s: EditorState): (id: string)
    ensures id != "" <==> s.dragged.Some? && BoxAt(s.grid, s.dragged.value).Some?
    ensures id != "" ==>
      (forall k :: 0 <= k < |id| ==> '0' <= id[k] <= '9') &&
      ParseDecimal(id) == BoxAt(s.grid, s.dragged.value).value.id
  {
    match s.dragged
    case Some(p) => IdText(s.grid, p)
    case None => ""
  }

  /** When a drop may swap: a box is being dragged, the target cell holds a
      box, and the two boxes' ids differ. */
  predicate DropAccepted(s: EditorState, target: Pos) {
    s.dragged.Some? && BoxAt(s.grid, s.dragged.value).Some? && BoxAt(s.grid, target).Some? &&
    BoxAt(s.grid, s.dragged.value).value.id != BoxAt(s.grid, target).value.id
  }

  /** What the drop handler's timer captures: the two cells and the boxes
      found in them when the handler ran. */
  datatype Pending = Pending(sourceCell: Pos, targetCell: Pos, sourceChild: Cell, targetChild: Cell)

  /** One run of `handleDrop` on the element at cell `target`: its guards on
      the ids as text and on the cells' boxes, and the timer it schedules when
      they pass. The run itself changes no state of the model. Because the
      text of a number determines the number, the guards pass exactly when
      the drop is accepted; the timer then holds the two cells and their
      boxes. */
  function HandleDrop(s: EditorState, target: Pos): (pending: Option<Pending>)
    ensures pending.Some? <==> DropAccepted(s, target)
    ensures pending.Some? ==>
      InGrid(s.grid, s.dragged.value) && InGrid(s.grid, target) &&
      pending.value == Pending(s.dragged.value, target, At(s.grid, s.dragged.value), At(s.grid, target))
  {
    var sourceId, targetId := SourceId(s), IdText(s.grid, target);
    if sourceId == "" || targetId == "" || sourceId == targetId then None
    else
      var sourceCell := s.dragged.value;
      var sourceChild, targetChild := BoxAt(s.grid, sourceCell), BoxAt(s.grid, target);
      if sourceChild.None? || targetChild.None? then None
      else Some(Pending(sourceCell, target, sourceChild, targetChild))
  }

  /** The timer's body: the two appends, then `saveState`. The target cell
      receives the captured source box, the source cell the captured target
      box, every other cell keeps its content, and the table after the
      appends is pushed. */
  function RunTimer(s: EditorState, pd: Pending): (t: EditorState)
    requires InGrid(s.grid, pd.sourceCell) && InGrid(s.grid, pd.targetCell)
    ensures t.grid == Commit(s.grid, pd.sourceCell, pd.targetCell, pd.sourceChild, pd.targetChild)
    ensures SameShape(s.grid, t.grid) && InGrid(t.grid, pd.sourceCell) && InGrid(t.grid, pd.targetCell)
    ensures At(t.grid, pd.targetCell) == pd.sourceChild
    ensures pd.sourceCell != pd.targetCell ==> At(t.grid, pd.sourceCell) == pd.targetChild
    ensures forall q :: InGrid(s.grid, q) && q != pd.sourceCell && q != pd.targetCell ==> At(t.grid, q) == At(s.grid, q)
    ensures t.dragged == s.dragged && t.stack == s.stack + [t.grid]
  {
    Save(s.(grid := Commit(s.grid, pd.sourceCell, pd.targetCell, pd.sourceChild, pd.targetChild)))
  }

  /** `n` timers holding the same captured values, firing in order. Each
      writes the same two cells with the same boxes, so after at least one
      of them the two cells hold the captured boxes and every other cell is
      as before; each pushes one snapshot. */
  function RunTimers(s: EditorState, pd: Pending, n: nat): (t: EditorState)
    requires InGrid(s.grid, pd.sourceCell) && InGrid(s.grid, pd.targetCell)
    ensures SameShape(s.grid, t.grid) && InGrid(t.grid, pd.sourceCell) && InGrid(t.grid, pd.targetCell)
    ensures t.dragged == s.dragged
    ensures |t.stack| == |s.stack| + n && t.stack[..|s.stack|] == s.stack
    ensures n > 0 ==> At(t.grid, pd.targetCell) == pd.sourceChild
    ensures n > 0 && pd.sourceCell != pd.targetCell ==> At(t.grid, pd.sourceCell) == pd.targetChild
    ensures n > 0 ==> forall q :: InGrid(s.grid, q) && q != pd.sourceCell && q != pd.targetCell ==> At(t.grid, q) == At(s.grid, q)
    decreases n
  {
    if n == 0 then s else RunTimer(RunTimers(s, pd, n - 1), pd)
  }

  /** The first timer swaps the two boxes; each further timer appends them
      to the cells they are already in and only pushes the swapped table
      again. */
  lemma {:induction false} RunTimersSwap(s: EditorState, a: Pos, b: Pos, n: nat)
    requires InGrid(s.grid, a) && InGrid(s.grid, b) && n > 0
    ensures RunTimers(s, Pending(a, b, At(s.grid, a), At(s.grid, b)), n) ==
      EditorState(Swap(s.grid, a, b), s.dragged, s.stack + Copies(Swap(s.grid, a, b), n))
    decreases n
  {
    var pd := Pending(a, b, At(s.grid, a), At(s.grid, b));
    var h := Swap(s.grid, a, b);
    if n > 1 {
      RunTimersSwap(s, a, b, n - 1);
      CommitAgainKeepsSwap(s.grid, a, b);
      assert Copies(h, n - 1) + [h] == Copies(h, n);
    }
  }

  /** A drop event that reaches `listeners` listeners, each running
      `handleDrop` on the same element. Nothing changes until the timers
      fire, so every run passes or fails the guards alike and schedules the
      same timer; the timers then fire in order, before the next event. */
  function Drop(s: EditorState, target: Pos, listeners: nat): (t: EditorState)
    ensures !DropAccepted(s, target) || listeners == 0 ==> t == s
    ensures DropAccepted(s, target) && listeners > 0 ==>
      InGrid(s.grid, s.dragged.value) && InGrid(s.grid, target) &&
      t.grid == Swap(s.grid, s.dragged.value, target) && t.dragged == s.dragged &&
      t.stack == s.stack + Copies(t.grid, listeners)
  {
    match HandleDrop(s, target)
    case None => s
    case Some(pd) =>
      if listeners > 0 then RunTimersSwap(s, pd.sourceCell, pd.targetCell, listeners); RunTimers(s, pd, listeners)
      else s
  }

  /** An accepted drop that reaches at least one listener exchanges the
      boxes of the source and target cells, leaves every other cell and the
      table's shape as they were, and moves boxes without copying or losing
      any. */
  lemma DropSwaps(s: EditorState, target: Pos, listeners: nat)
    requires DropAccepted(s, target) && listeners > 0
    ensures var src, t := s.dragged.value, Drop(s, target, listeners);
      SameShape(s.grid, t.grid) &&
      At(t.grid, src) == At(s.grid, target) && At(t.grid, target) == At(s.grid, src) &&
      (forall q :: InGrid(s.grid, q) && q != src && q != target ==> At(t.grid, q) == At(s.grid, q)) &&
      multiset(Cells(t.grid)) == multiset(Cells(s.grid))
  {
    SwapPreservesCells(s.grid, s.dragged.value, target);
  }

  /** A drop changes the table exactly when it reaches a listener and is
      accepted. */
  lemma DropChangesGridIff(s: EditorState, target: Pos, listeners: nat)
    ensures Drop(s, target, listeners).grid != s.grid <==> listeners > 0 && DropAccepted(s, target)
  {
    if listeners > 0 && DropAccepted(s, target) {
      assert At(Drop(s, target, listeners).grid, target) != At(s.grid, target);
    }
  }

  /** Undo has nothing to pop: the page shows "Nothing to undo." */
  predicate NothingToUndo(s: EditorState) {
    s.stack == []
  }

  /** `handleUndo`: with an empty stack nothing changes; otherwise the stack
      loses exactly its top, which becomes the live table. */
  function Undo(s: EditorState): (t: EditorState)
    ensures NothingToUndo(s) ==> t == s
    ensures !NothingToUndo(s) ==> s.stack == t.stack + [t.grid] && t.dragged == s.dragged
  {
    if s.stack == [] then s
    else s.(grid := s.stack[|s.stack| - 1], stack := s.stack[..|s.stack| - 1])
  }

  /** `n` clicks on "Undo". */
  function Undos(s: EditorState, n: nat): EditorState
    decreases n
  {
    if n == 0 then s else Undos(Undo(s), n - 1)
  }

  lemma {:induction false} UndosAdd(s: EditorState, i: nat, j: nat)
    ensures Undos(s, i + j) == Undos(Undos(s, i), j)
    decreases i
  {
    if i == 0 {
      assert Undos(s, i) == s;
    } else {
      var n := i + j;
      assert Undos(s, n) == Undos(Undo(s), n - 1);
      UndosAdd(Undo(s), i - 1, j);
      assert n - 1 == (i - 1) + j;
    }
  }

  /** With `m` copies of one table on top of the stack, each of the first
      `m` undos makes that table live and pops one copy. */
  lemma {:induction false} UndoCopies(s: EditorState, below: seq<Grid>, g: Grid, m: nat, k: nat)
    requires s.stack == below + Copies(g, m) && 1 <= k <= m
    ensures Undos(s, k) == EditorState(g, s.dragged, below + Copies(g, m - k))
    decreases k
  {
    var u := Undo(s);
    assert s.stack == below + Copies(g, m - 1) + [g];
    assert u == EditorState(g, s.dragged, below + Copies(g, m - 1));
    if k > 1 {
      UndoCopies(u, below, g, m - 1, k - 1);
    }
  }

  /** Undo is the inverse of saving: it pops what `saveState` pushed. */
  lemma UndoAfterSave(s: EditorState)
    ensures Undo(Save(s)) == s
  {
  }

  /** Adding a row saves the table after the append, so the next undo leaves
      the new row in place and only discards that snapshot. */
  lemma UndoAfterAddRowKeepsRow(s: EditorState, colors: seq<string>)
    requires |colors| == 3
    ensures Undo(AddRow(s, colors)).grid == AddRow(s, colors).grid
    ensures Undo(AddRow(s, colors)).stack == s.stack
  {
  }

  /** The state after a drag from cell `a` whose start reaches `k1`
      listeners, a drop on the box in cell `b` that reaches `k2` listeners,
      and the end of the drag: the swapped table, no drag, and above the old
      stack `k1` copies of the table from before and `k2` of the swapped
      one. */
  lemma DragDropRuns(s: EditorState, a: Pos, b: Pos, k1: nat, k2: nat)
    requires BoxAt(s.grid, a).Some? && BoxAt(s.grid, b).Some?
    requires BoxAt(s.grid, a).value.id != BoxAt(s.grid, b).value.id
    requires k1 > 0 && k2 > 0
    ensures InGrid(s.grid, a) && InGrid(s.grid, b)
    ensures DragEnd(Drop(DragStartEvent(s, a, k1), b, k2)) ==
      EditorState(Swap(s.grid, a, b), None, s.stack + Copies(s.grid, k1) + Copies(Swap(s.grid, a, b), k2))
  {
    DragStartEventSaves(s, a, k1);
    assert DropAccepted(DragStartEvent(s, a, k1), b);
  }

  /** Undos over `k1` snapshots of `g` topped by `k2` of `h`, with `h` live:
      the first `k2` undos keep `h`, the next one brings back `g`, and after
      `k1 + k2` undos the stack is `below`. */
  lemma UndoRuns(below: seq<Grid>, g: Grid, h: Grid, k1: nat, k2: nat)
    requires k1 > 0 && k2 > 0
    ensures var t := EditorState(h, None, below + Copies(g, k1) + Copies(h, k2));
      Undos(t, k2).grid == h &&
      Undos(t, k2 + 1).grid == g &&
      Undos(t, k1 + k2) == EditorState(g, None, below)
  {
    var t := EditorState(h, None, below + Copies(g, k1) + Copies(h, k2));
    UndoCopies(t, below + Copies(g, k1), h, k2, k2);
    var u := Undos(t, k2);
    assert u == EditorState(h, None, below + Copies(g, k1));
    UndoCopies(u, below, g, k1, 1);
    UndoCopies(u, below, g, k1, k1);
    UndosAdd(t, k2, 1);
    UndosAdd(t, k2, k1);
  }

  /** The first `k2` undos after such a drag and drop leave the swapped
      table in place; undo number `k2 + 1` brings back the table from before
      the drag, and after `k1 + k2` undos the stack is as it was. With one
      listener each that is two undos. */
  lemma SwapUndoneAfterRuns(s: EditorState, a: Pos, b: Pos, k1: nat, k2: nat)
    requires BoxAt(s.grid, a).Some? && BoxAt(s.grid, b).Some?
    requires BoxAt(s.grid, a).value.id != BoxAt(s.grid, b).value.id
    requires k1 > 0 && k2 > 0
    ensures var t := DragEnd(Drop(DragStartEvent(s, a, k1), b, k2));
      t.grid == Swap(s.grid, a, b) && t.grid != s.grid &&
      Undos(t, k2).grid == t.grid &&
      Undos(t, k2 + 1).grid == s.grid &&
      Undos(t, k1 + k2) == EditorState(s.grid, None, s.stack)
  {
    DragDropRuns(s, a, b, k1, k2);
    var h := Swap(s.grid, a, b);
    assert At(h, b) != At(s.grid, b);
    UndoRuns(s.stack, s.grid, h, k1, k2);
  }

  /** The events the page reacts to. A drag start or a drop names the
      number of listeners it reaches, since each of them runs the handler. */
  datatype Event =
    | AddRowClick(colors: seq<string>)
    | DragStartOn(p: Pos, listeners: nat)
    | DropOn(target: Pos, listeners: nat)
    | DragEndEvent
    | UndoClick

  predicate WellFormedEvent(e: Event) {
    e.AddRowClick? ==> |e.colors| == 3
  }

  /** The state after one event's handlers (and the timers they set) have
      run to completion. */
  function Step(s: EditorState, e: Event): EditorState
    requires WellFormedEvent(e)
  {
    match e
    case AddRowClick(colors) => AddRow(s, colors)
    case DragStartOn(p, listeners) => DragStartEvent(s, p, listeners)
    case DropOn(target, listeners) => Drop(s, target, listeners)
    case DragEndEvent => DragEnd(s)
    case UndoClick => Undo(s)
  }

  /** The state after the events, handled one after another. */
  function Run(s: EditorState, events: seq<Event>): EditorState
    requires forall k :: 0 <= k < |events| ==> WellFormedEvent(events[k])
    decreases |events|
  {
    if events == [] then s else Run(Step(s, events[0]), events[1..])
  }

  /** Every box, in the live table and in every snapshot, shows its own id. */
  predicate Consistent(s: EditorState) {
    Labelled(s.grid) && forall k :: 0 <= k < |s.stack| ==> Labelled(s.stack[k])
  }

  lemma StepKeepsConsistent(s: EditorState, e: Event)
    requires WellFormedEvent(e) && Consistent(s)
    ensures Consistent(Step(s, e))
  {
    match e
    case AddRowClick(colors) =>
      AddRowKeepsLabelled(s.grid, colors);
    case DragStartOn(p, listeners) =>
      DragStartEventSaves(s, p, listeners);
    case DropOn(target, listeners) =>
      if DropAccepted(s, target) && listeners > 0 {
        SwapKeepsLabelled(s.grid, s.dragged.value, target);
      }
    case _ =>
  }

  /** Whatever the events, a consistent page stays consistent. */
  lemma {:induction false} RunKeepsConsistent(s: EditorState, events: seq<Event>)
    requires forall k :: 0 <= k < |events| ==> WellFormedEvent(events[k])
    requires Consistent(s)
    ensures Consistent(Run(s, events))
    decreases |events|
  {
    if events != [] {
      StepKeepsConsistent(s, events[0]);
      RunKeepsConsistent(Step(s, events[0]), events[1..]);
    }
  }

  /** Two "Add Row" clicks on an empty table give two boxes numbered 100
      (and two numbered 200); dragging one onto the other, in a different
      cell, is then refused. */
  lemma DuplicateIdsBlockDrop(c1: seq<string>, c2: seq<string>, listeners: nat)
    requires |c1| == 3 && |c2| == 3
    ensures var t := DragStart(AddRow(AddRow(Init([]), c1), c2), Pos(0, 1));
      t.dragged == Some(Pos(0, 1)) &&
      BoxAt(t.grid, Pos(0, 1)).Some? && BoxAt(t.grid, Pos(1, 0)).Some? &&
      At(t.grid, Pos(0, 1)).value.id == At(t.grid, Pos(1, 0)).value.id == 100 &&
      Drop(t, Pos(1, 0), listeners) == t
  {
    var s := AddRow(AddRow(Init([]), c1), c2);
    assert s.grid == [NewRow(0, c1), NewRow(1, c2)];
  }
}
