# Drag-and-drop grid editor, modelled in Dafny

The page script `script.js` runs a grid editor: a table whose cells each
hold a coloured, numbered box. Users drag one box onto another to swap
them, click "Add Row" to append three new boxes, and click "Undo" to
restore the last snapshot from a stack of whole-table copies.

The model has four modules:

- `Text` (text.dfy): the decimal text of a box number, which the page
  stores in `data-id` and shows as the box's text. It proves that the text
  determines the number.
- `Board` (board.dfy): the table as a value: rows of cells, each cell
  holding an optional `Box(id, text, color)`. It also defines writing one
  cell (`Put`), the two-cell exchange a drop performs (`Swap`), the row
  that "Add Row" builds (`NewRow`) and `getRandomColor` (`RandomColor`).
  Because the table is a value, a snapshot is independent of every later
  change to the live table, as `cloneNode(true)` makes it in the page.
- `Editor` (editor.dfy): the three globals as one `EditorState` and each
  handler run as a function from the state before it to the state after
  it. The drop handler only checks its guards and schedules a timer; the
  timer's body moves the boxes and saves. An event that reaches several
  listeners runs its handler once per listener, so a drag start and a drop
  carry the number of listeners they reach. The lemmas state what the
  handlers promise, how undo combines with them, and an invariant kept over
  any sequence of events.
- `Controller` (controller.dfy): class `GridEditor`, whose fields are the
  globals and whose methods are the handler runs and the timer's body,
  changing the fields in place. Two dispatch methods deliver one event to
  several listeners and then fire the timers they set. Each method is
  proved to perform exactly one step of `Editor`.

Which listeners an event reaches follows from the wiring in script.js.
Elements keep their listeners when `appendChild` moves them, and a copy
made by `cloneNode` carries none. Undo puts such a copy in place of the
table and then attaches listeners to what it contains (script.js:152-167).

- A drag start or drag end on a box reaches the table's listener before
  the first undo (script.js:11-16), plus the box's own. A box has its own
  when "Add Row" made it since the last undo (script.js:34-39) or when it
  was in the table at the last undo (script.js:156, 160). So the count is
  1 for boxes of the loaded page and 2 for boxes made by "Add Row" before
  any undo. After an undo it is always 1.
- A drop on a box reaches up to three listeners. The box's own: it has one
  when "Add Row" made it since the last undo (script.js:38); undo gives
  boxes none (script.js:155-161). Its cell's: the cell has one when it was
  in the table at the last undo (script.js:164); cells that "Add Row" makes
  have none (script.js:23). The table's: only before the first undo
  (script.js:15). So before any undo the count is 1 or 2. After an undo
  it can be 0, 1 or 2. For example, a restored box dropped onto a box made
  by "Add Row" after the undo swaps them. The new box now sits in a
  restored cell, so a drop on it reaches 2 listeners. The restored box
  sits in a new cell, so a drop on it reaches none and changes nothing
  (`DropChangesGridIff`).

Three behaviours of the code that the model makes explicit:

- Box ids are not unique. A new box is numbered `rows * 100 + i * 100`,
  so consecutive rows share two numbers (`IdsCollideAcrossRows`). A drop
  between two different cells whose boxes share a number is refused
  (`DuplicateIdsBlockDrop`).
- Undo does not take back the last row added or the last swap. Both push
  the table as it is after the change, so the next undo leaves the table
  as it is (`UndoAfterAddRowKeepsRow`).
- Taking back a drag and drop takes more than one undo
  (`SwapUndoneAfterRuns`). When the drag start reaches k1 listeners and the
  drop k2, the first k2 undos leave the swapped table, undo k2 + 1 brings
  back the table from before the drag, and the stack is as it was after
  k1 + k2 undos. When the drag start and the drop each reach one listener,
  that is two undos. For two boxes made by "Add Row" before any undo
  it is three undos for the table and four for the stack: both drop
  handler runs pass their guards against the unswapped table, and the
  second timer re-appends each box to the cell it is already in
  (`CommitAgainKeepsSwap`) and saves the swapped table a second time.

## Model

| member | source | states |
|---|---|---|
| `Text.DecimalText` | script.js:25-30 | the number stored as `data-id` and shown as text is never empty and is made only of decimal digits |
| `Text.ParseRendered` | script.js:28-30 | reading a number's text gives the number back |
| `Text.TextInjective` | script.js:86 | two box numbers have equal texts exactly when they are equal, so the handler's string comparison compares the numbers |
| `Board.BoxAt` | script.js:95-96 | the box found in a cell is the cell's content when the cell is in the table and holds a box, and None otherwise |
| `Board.IdText` | script.js:84 | the `data-id` seen at a cell is empty exactly when the cell holds no box; otherwise it is a digit string that reads back as the box's number |
| `Board.Put` | script.js:113-114 | writing one cell keeps the table's shape, sets that cell and leaves every other cell unchanged |
| `Board.Commit` | script.js:113-114 | the timer's two appends keep the table's shape; the target cell receives the captured source box, the source cell (when it is another cell) the captured target box, and every other cell is unchanged |
| `Board.Swap` | script.js:113-114 | the two cells exchange their contents, the shape is kept and every other cell is unchanged |
| `Board.PutSameIsNoOp` | script.js:113 | appending a box to the cell it is already in leaves the table as it is |
| `Board.CommitAgainKeepsSwap` | script.js:112-116 | a second timer with the same captured boxes, run on the swapped table, leaves it as it is |
| `Board.SwapInvolution` | script.js:113-114 | swapping the same two cells twice restores the table |
| `Board.PutCells` | script.js:113-114 | writing a cell removes its old content from the table's multiset of cells and adds the new content |
| `Board.SwapPreservesCells` | script.js:113-114 | a swap moves boxes and never copies or loses one: the multiset of cells is unchanged |
| `Board.NewRow` | script.js:21-32 | a new row has three cells; the box in column i has number rows * 100 + i * 100, shows that number as its text and has the colour drawn for it |
| `Board.IdsCollideAcrossRows` | script.js:25 | the row built with r + 1 rows in the table repeats two numbers of the row built with r rows |
| `Board.NewRowIdsDistinct` | script.js:25 | the three boxes of one new row have distinct numbers |
| `Board.SwapKeepsLabelled` | script.js:113-114 | if every box shows its own number, it still does after a swap |
| `Board.AddRowKeepsLabelled` | script.js:21-41 | if every box shows its own number, it still does after a row is appended |
| `Board.RandomColor` | script.js:129-136 | the colour is "#" followed by six hexadecimal digits, the k-th of which has the value of the k-th draw |
| `Editor.Save` | script.js:170-173 | saving pushes one snapshot equal to the live table and changes nothing else |
| `Editor.AddRow` | script.js:20-44 | "Add Row" appends exactly one row, the new row of three boxes, and keeps every existing row. It adds exactly those cells to the table and pushes one snapshot equal to the table after the append. The drag is unchanged |
| `Editor.DragStart` | script.js:47-56 | one run on a box records its cell and pushes one snapshot equal to the unchanged table; on anything else nothing changes |
| `Editor.DragStartEventSaves` | script.js:47-56 | a drag start reaching n listeners on a box records its cell and pushes the unchanged table n times; otherwise nothing changes |
| `Editor.DragEnd` | script.js:122-127 | drag end empties the drag slot and leaves the table and the stack alone |
| `Editor.DragEndIdempotent` | script.js:122-127 | a second run of drag end changes nothing more |
| `Editor.SourceId` | script.js:50 | the drag data is non-empty exactly when a drag was recorded and its cell holds a box; it is then a digit string that reads back as that box's number |
| `Editor.HandleDrop` | script.js:81-101 | the guards pass exactly when a drag is recorded, both cells hold boxes and the two numbers differ; the timer then holds both cells and their boxes |
| `Editor.RunTimer` | script.js:112-119 | the timer leaves the table as the two appends make it: the target cell holds the captured source box, the source cell (when it is another cell) the captured target box, every other cell and the shape are unchanged; the drag is kept and one snapshot of the new table is pushed |
| `Editor.RunTimers` | script.js:112-119 | n timers with the same captured boxes keep the shape and the drag and push n snapshots on top of the old stack; after at least one, the two cells hold the captured boxes as one timer leaves them and every other cell is unchanged |
| `Editor.RunTimersSwap` | script.js:112-119 | of n timers with the same captured boxes, the first swaps the cells and each pushes the swapped table: n snapshots of it |
| `Editor.Drop` | script.js:81-119 | a drop that is refused, or reaches no listener, changes nothing; otherwise the table becomes the swap of the two cells, the drag is kept, and one snapshot of the swapped table is pushed per listener |
| `Editor.DropSwaps` | script.js:112-119 | an accepted drop exchanges the source and target cells' boxes, leaves all other cells and the shape unchanged, and keeps the multiset of boxes |
| `Editor.DropChangesGridIff` | script.js:86-119 | a drop changes the table exactly when it reaches a listener and passes the guards |
| `Editor.Undo` | script.js:142-149 | undo with an empty stack changes nothing; otherwise the old stack is the new stack with the new live table on top, and the drag is kept |
| `Editor.UndoCopies` | script.js:142-149 | with m copies of one table on top of the stack, each of the first m undos makes it live and pops one copy |
| `Editor.UndoAfterSave` | script.js:170-178 | undo is the inverse of `saveState`: it pops what was pushed and restores that table |
| `Editor.UndoAfterAddRowKeepsRow` | script.js:41-44 | the first undo after "Add Row" leaves the new row in the table and returns the stack to what it was before the click |
| `Editor.DragDropRuns` | script.js:47-127 | a drag start reaching k1 listeners on a box, an accepted drop reaching k2 on another box and the drag end leave the swapped table, no drag, and above the old stack k1 snapshots of the table from before and k2 of the swapped table |
| `Editor.UndoRuns` | script.js:142-149 | with k1 snapshots of one table topped by k2 of the live one, the first k2 undos keep the live table, the next brings back the earlier one, and k1 + k2 undos leave the stack below them |
| `Editor.SwapUndoneAfterRuns` | script.js:47-149 | after a drag start reaching k1 listeners, an accepted drop reaching k2 and a drag end, k2 undos leave the swapped table, undo k2 + 1 restores the table from before the drag, and after k1 + k2 undos the stack is restored too |
| `Editor.StepKeepsConsistent` | script.js:20-178 | each event keeps every box, live and in every snapshot, showing its own number |
| `Editor.RunKeepsConsistent` | script.js:20-178 | any sequence of events keeps every box, live and in every snapshot, showing its own number |
| `Editor.DuplicateIdsBlockDrop` | script.js:25-88 | after two "Add Row" clicks on an empty table, dragging the box numbered 100 in the first row onto the box numbered 100 in the second row is refused |
| `Controller.GridEditor.constructor` | script.js:1-6 | the controller starts with the loaded table, no drag and an empty stack |
| `Controller.GridEditor.SaveState` | script.js:170-173 | pushes a copy of the live table and changes nothing else |
| `Controller.GridEditor.RestoreState` | script.js:175-178 | replaces the live table with the snapshot and changes nothing else |
| `Controller.GridEditor.AddRow` | script.js:20-45 | builds the row in a loop of three and changes the fields exactly as `Editor.AddRow` does |
| `Controller.GridEditor.HandleDragStart` | script.js:47-56 | changes the fields exactly as `Editor.DragStart` does |
| `Controller.GridEditor.DispatchDragStart` | script.js:47-56 | runs the handler once per listener and changes the fields exactly as `Editor.DragStartEvent` does |
| `Controller.GridEditor.HandleDragEnd` | script.js:122-127 | changes the fields exactly as `Editor.DragEnd` does |
| `Controller.GridEditor.HandleDrop` | script.js:81-101 | runs both guards without changing anything and returns a timer exactly when the drop is accepted |
| `Controller.GridEditor.RunTimer` | script.js:112-119 | performs the two cell writes and the save, changing the fields exactly as `Editor.RunTimer` does |
| `Controller.GridEditor.DispatchDrop` | script.js:81-119 | runs the handler once per listener, then fires the timers in order, changing the fields exactly as `Editor.Drop` does |
| `Controller.GridEditor.HandleUndo` | script.js:142-149 | reports "nothing to undo" exactly when the stack was empty, and changes the fields exactly as `Editor.Undo` does |

## Left out

- Event wiring: the `addEventListener` calls (script.js:11-16, 34-39, 152-167) are not modelled as state. Their effect on data is how many times a handler runs per event: that count is a parameter of the drag-start and drop events, and the rules that fix it are stated above. The model does not track which boxes carry their own listeners.
- Editor.DragStart: a drag start on a box made by "Add Row" before any undo runs the handler twice and pushes the unchanged table twice. The model gets this only when the event names two listeners (`DragStartEventSaves`).
- Editor.Drop: a drop that reaches two listeners (see the rules above) runs the handler twice. Both runs see the same state, so when the guards pass both set a timer. The second timer moves nothing and saves the swapped table again. The model gets this only when the event names two listeners (`RunTimersSwap`).
- Editor.DragEnd: a drag end on a box made by "Add Row" before any undo also runs twice; the second run changes nothing (`DragEndIdempotent`), so the model runs it once.
- The `fade` and `hovered` classes, `handleDragEnter`, `handleDragLeave` and `handleDragOver` (script.js:51, 58-79, 124) are visual only.
- The pixel offsets of the swap animation (script.js:104-109) depend on layout.
- Editor.Drop: the timers fire 1000 ms after the drop (script.js:112-119). The model fires them at the end of the drop event. It therefore does not capture a swap that lands on a table changed by another event during that second.
- Editor.Drop: the page's `draggedBox` reference follows the box into its new cell. The model keeps the cell where the drag started. Every run of the drop handler reads it before any timer fires, and the next handler to read it is drag end, which clears it.
- Editor.Drop: after an undo during a drag, the page's `draggedBox` is an element of the replaced table, no longer in the page. The drag data is then that box's number, and its cell is a cell of the replaced table. The timer moves the live target box into that detached cell and the stale dragged box into the live target cell. The live table then shows the dragged number twice and no longer holds the target box. The model instead reads the box now in the dragged cell of the live table and swaps within the live table, keeping the multiset of boxes.
- Editor.Drop: with no drag recorded, the page either returns at line 86 or throws at line 92 before changing anything. The model leaves the state unchanged in both cases.
- `Math.random` (script.js:133) is not modelled: `RandomColor` takes the six draws as a parameter. `Controller.GridEditor.AddRow` takes the three colours as a parameter.
- The `alert` (script.js:144) is the boolean result of `Controller.GridEditor.HandleUndo`.
- The initial table comes from the HTML page, which is not part of this model; the constructor takes it as a parameter. `table.rows.length` is taken to be the number of rows in the grid.
