/** The table the editor shows: rows of cells, each cell holding at most one
    box. The DOM table becomes a value, so a copy taken of it (a snapshot)
    is independent of every later change to the live table. */
module Board {
  import opened Text

  datatype Option<T> = None | Some(value: T)

  /** A box: `dataset.id` (kept as the number it renders), the text shown
      in it and its background colour. */
  datatype Box = Box(id: nat, text: string, color: string)

  type Cell = Option<Box>
  type Row = seq<Cell>
  type Grid = seq<Row>

  /** A cell of the table, by row index and column index. */
  datatype Pos = Pos(row: int, col: int)

  predicate InGrid(g: Grid, p: Pos) {
    0 <= p.row < |g| && 0 <= p.col < |g[p.row]|
  }

  function At(g: Grid, p: Pos): Cell
    requires InGrid(g, p)
  {
    g[p.row][p.col]
  }

  /** The box found in a cell, or None when the cell is empty or is not
      part of the table. */
  function BoxAt(g: Grid, p: Pos): (c: Cell)
    ensures c.Some? ==> InGrid(g, p) && c == At(g, p)
    ensures c.None? ==> !InGrid(g, p) || At(g, p).None?
  {
    if InGrid(g, p) then At(g, p) else None
  }

  /** The `data-id` attribute of the element a handler sees at a cell: the
      box's id as text, or the empty string when there is no box there (the
      event target is then the cell itself, which has no `data-id`). */
  function IdText(g: Grid, p: Pos): (s: string)
    ensures s == "" <==> BoxAt(g, p).None?
    ensures s != "" ==>
      (forall k :: 0 <= k < |s| ==> '0' <= s[k] <= '9') && ParseDecimal(s) == BoxAt(g, p).value.id
  {
    match BoxAt(g, p)
    case Some(b) => ParseRendered(b.id); DecimalText(b.id)
    case None => ""
  }

  predicate SameShape(g: Grid, h: Grid) {
    |g| == |h| && forall r :: 0 <= r < |g| ==> |g[r]| == |h[r]|
  }

  /** The table with one cell's content overwritten. */
  function Put(g: Grid, p: Pos, c: Cell): (h: Grid)
    requires InGrid(g, p)
    ensures SameShape(g, h) && At(h, p) == c
    ensures forall q :: InGrid(g, q) && q != p ==> At(h, q) == At(g, q)
  {
    g[p.row := g[p.row][p.col := c]]
  }

  /** The body of the drop handler's timer, with the cells and boxes it
      captured: `sourceCell.appendChild(targetChild)` then
      `targetCell.appendChild(sourceChild)`. Each cell holds at most one box,
      so after both moves each cell holds exactly the box appended to it:
      two overwrites give the same table. */
  function Commit(g: Grid, sourceCell: Pos, targetCell: Pos, sourceChild: Cell, targetChild: Cell): (h: Grid)
    requires InGrid(g, sourceCell) && InGrid(g, targetCell)
    ensures SameShape(g, h) && InGrid(h, sourceCell) && InGrid(h, targetCell)
    ensures At(h, targetCell) == sourceChild
    ensures sourceCell != targetCell ==> At(h, sourceCell) == targetChild
    ensures forall q :: InGrid(g, q) && q != sourceCell && q != targetCell ==> At(h, q) == At(g, q)
  {
    Put(Put(g, sourceCell, targetChild), targetCell, sourceChild)
  }

  /** The structural part of a drop: each of the two cells receives the
      other's box. The two cells exchange their contents, the table keeps
      its shape and every other cell is left as it was. */
  function Swap(g: Grid, a: Pos, b: Pos): (h: Grid)
    requires InGrid(g, a) && InGrid(g, b)
    ensures SameShape(g, h) && InGrid(h, a) && InGrid(h, b)
    ensures At(h, a) == At(g, b) && At(h, b) == At(g, a)
    ensures forall q :: InGrid(g, q) && q != a && q != b ==> At(h, q) == At(g, q)
  {
    Commit(g, a, b, At(g, a), At(g, b))
  }

  /** A second run of the same timer appends each box to the cell it is
      already in: the swapped table stays as it is. */
  lemma CommitAgainKeepsSwap(g: Grid, a: Pos, b: Pos)
    requires InGrid(g, a) && InGrid(g, b)
    ensures Commit(Swap(g, a, b), a, b, At(g, a), At(g, b)) == Swap(g, a, b)
  {
    var h := Swap(g, a, b);
    var h2 := Commit(h, a, b, At(g, a), At(g, b));
    assert h2 == Put(Put(h, a, At(h, a)), b, At(h, b));
    PutSameIsNoOp(h, a);
    PutSameIsNoOp(h, b);
  }

  lemma PutSameIsNoOp(g: Grid, p: Pos)
    requires InGrid(g, p)
    ensures Put(g, p, At(g, p)) == g
  {
    assert g[p.row][p.col := At(g, p)] == g[p.row];
  }

  /** Swapping the same two cells again restores the table. */
  lemma SwapInvolution(g: Grid, a: Pos, b: Pos)
    requires InGrid(g, a) && InGrid(g, b)
    ensures Swap(Swap(g, a, b), a, b) == g
  {
    var h := Swap(Swap(g, a, b), a, b);
    assert |h| == |g|;
    forall r | 0 <= r < |g|
      ensures h[r] == g[r]
    {
      assert |h[r]| == |g[r]|;
      forall c | 0 <= c < |g[r]|
        ensures h[r][c] == g[r][c]
      {
        assert At(h, Pos(r, c)) == At(g, Pos(r, c));
      }
    }
  }

  /** All cells of the table, row after row. */
  function Cells(g: Grid): seq<Cell> {
    if g == [] then [] else Cells(g[..|g| - 1]) + g[|g| - 1]
  }

  lemma CellsAppend(g: Grid, row: Row)
    ensures Cells(g + [row]) == Cells(g) + row
  {
    assert (g + [row])[..|g|] == g;
  }

  lemma RowPutCells(row: Row, i: nat, c: Cell)
    requires i < |row|
    ensures multiset(row[i := c]) + multiset{row[i]} == multiset(row) + multiset{c}
  {
    assert row == row[..i] + [row[i]] + row[i + 1..];
    assert row[i := c] == row[..i] + [c] + row[i + 1..];
  }

  /** Replacing one cell takes its old content out of the table's multiset
      of cells and puts the new content in (stated without subtraction:
      the new table plus the old content equals the old table plus the new
      content). */
  lemma {:induction false} PutCells(g: Grid, p: Pos, c: Cell)
    requires InGrid(g, p)
    ensures multiset(Cells(Put(g, p, c))) + multiset{At(g, p)} == multiset(Cells(g)) + multiset{c}
    decreases |g|
  {
    var h := Put(g, p, c);
    var last := |g| - 1;
    assert Cells(h) == Cells(h[..last]) + h[last];
    assert Cells(g) == Cells(g[..last]) + g[last];
    if p.row < last {
      assert h[..last] == Put(g[..last], p, c);
      assert h[last] == g[last];
      PutCells(g[..last], p, c);
      assert At(g[..last], p) == At(g, p);
      calc {
        multiset(Cells(h)) + multiset{At(g, p)};
        multiset(Cells(Put(g[..last], p, c))) + multiset{At(g, p)} + multiset(g[last]);
        multiset(Cells(g[..last])) + multiset{c} + multiset(g[last]);
        multiset(Cells(g)) + multiset{c};
      }
    } else {
      assert h[..last] == g[..last];
      RowPutCells(g[last], p.col, c);
    }
  }

  /** A swap moves boxes and never copies or loses one: the table holds the
      same multiset of cells before and after. */
  lemma SwapPreservesCells(g: Grid, a: Pos, b: Pos)
    requires InGrid(g, a) && InGrid(g, b)
    ensures multiset(Cells(Swap(g, a, b))) == multiset(Cells(g))
  {
    var g1 := Put(g, a, At(g, b));
    PutCells(g, a, At(g, b));
    PutCells(g1, b, At(g, a));
    assert At(g1, b) == At(g, b);
    var m, m2 := multiset(Cells(g)), multiset(Cells(Swap(g, a, b)));
    assert m2 + multiset{At(g, b)} == m + multiset{At(g, b)};
    assert forall x :: m2[x] == m[x] by {
      forall x ensures m2[x] == m[x] {
        assert (m2 + multiset{At(g, b)})[x] == (m + multiset{At(g, b)})[x];
      }
    }
  }

  /** The box created in column `col` of a new row when the table already
      has `rows` rows: its number, shown as its label, and a given colour. */
  function NewBox(rows: nat, col: nat, color: string): Box {
    var n := rows * 100 + col * 100;
    Box(n, DecimalText(n), color)
  }

  /** The row the "Add Row" button builds: three cells, each holding one
      new box whose id is rows * 100 + i * 100, whose label is that id's
      text and whose colour is the one drawn for its column. */
  function NewRow(rows: nat, colors: seq<string>): (row: Row)
    requires |colors| == 3
    ensures |row| == 3
    ensures forall i :: 0 <= i < 3 ==>
      row[i].Some? && row[i].value.id == rows * 100 + i * 100 &&
      row[i].value.text == DecimalText(row[i].value.id) && row[i].value.color == colors[i]
  {
    seq(3, i requires 0 <= i < 3 => Some(NewBox(rows, i, colors[i])))
  }

  /** Ids are not unique: the row built when the table has r + 1 rows
      repeats two ids of the row built when it had r rows. */
  lemma IdsCollideAcrossRows(r: nat, c1: seq<string>, c2: seq<string>)
    requires |c1| == 3 && |c2| == 3
    ensures NewRow(r, c1)[1].value.id == NewRow(r + 1, c2)[0].value.id
    ensures NewRow(r, c1)[2].value.id == NewRow(r + 1, c2)[1].value.id
  {
  }

  /** Within one new row the ids are distinct. */
  lemma NewRowIdsDistinct(rows: nat, colors: seq<string>)
    requires |colors| == 3
    ensures forall i, j :: 0 <= i < j < 3 ==> NewRow(rows, colors)[i].value.id != NewRow(rows, colors)[j].value.id
  {
  }

  /** Every box shows its own id as its label. */
  predicate Labelled(g: Grid) {
    forall c :: c in Cells(g) && c.Some? ==> c.value.text == DecimalText(c.value.id)
  }

  lemma SwapKeepsLabelled(g: Grid, a: Pos, b: Pos)
    requires InGrid(g, a) && InGrid(g, b) && Labelled(g)
    ensures Labelled(Swap(g, a, b))
  {
    SwapPreservesCells(g, a, b);
    forall c | c in Cells(Swap(g, a, b))
      ensures c in Cells(g)
    {
      assert c in multiset(Cells(Swap(g, a, b)));
    }
  }

  lemma AddRowKeepsLabelled(g: Grid, colors: seq<string>)
    requires |colors| == 3 && Labelled(g)
    ensures Labelled(g + [NewRow(|g|, colors)])
  {
    CellsAppend(g, NewRow(|g|, colors));
  }

  const HexLetters := "0123456789ABCDEF"

  /** The value of a hexadecimal digit as `getRandomColor` writes it. */
  function HexValue(c: char): nat {
    if '0' <= c <= '9' then c as int - '0' as int
    else if 'A' <= c <= 'F' then c as int - 'A' as int + 10
    else 0
  }

  predicate IsHexDigit(c: char) {
    '0' <= c <= '9' || 'A' <= c <= 'F'
  }

  lemma HexLetterValue(d: nat)
    requires d < 16
    ensures IsHexDigit(HexLetters[d]) && HexValue(HexLetters[d]) == d
  {
  }

  /** `getRandomColor`: "#" followed by six hexadecimal digits. Each of
      `draws` is one value of `Math.floor(Math.random() * 16)`. */
  method RandomColor(draws: seq<nat>) returns (color: string)
    requires |draws| == 6 && forall k :: 0 <= k < 6 ==> draws[k] < 16
    ensures |color| == 7 && color[0] == '#'
    ensures forall j :: 1 <= j < 7 ==> IsHexDigit(color[j]) && HexValue(color[j]) == draws[j - 1]
  {
    color := "#";
    for i := 0 to 6
      invariant |color| == i + 1 && color[0] == '#'
      invariant forall j :: 1 <= j <= i ==> IsHexDigit(color[j]) && HexValue(color[j]) == draws[j - 1]
    {
      var digit := HexLetters[draws[i]];
      HexLetterValue(draws[i]);
      color := color + [digit];
    }
  }
}
