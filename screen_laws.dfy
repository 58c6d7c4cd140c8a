/** What the table operations mean on a tidy state (full rows of `cols`
    cells, the default scroll region): which rows of the live screen they
    change, and how. */
module ScreenLaws {
  import opened Cells
  import opened JsArray
  import opened Rows
  import opened Viewport
  import opened Screen

  /** Every screen row sits in a slot of the table. */
  lemma PhysInRange(r: Ring, rows: nat, y: int)
    requires 0 <= r.base < r.height && rows <= r.height && 0 <= y < rows
    ensures 0 <= Phys(r, y) < r.height
  {
  }

  /** Printing a character stores it in the cursor's cell of the live screen
      and changes no other cell, keeping the state tidy. */
  lemma PutCellTidy(r: Ring, cols: nat, rows: nat, total: int, y: int, x: nat, v: Cell)
    requires Tidy(r, cols, rows, total) && 0 <= y < rows && x < cols
    ensures var res := PutCell(r.lines, Phys(r, y), x, v);
      && res.Some?
      && Tidy(r.(lines := res.value), cols, rows, total)
      && LiveScreen(r.(lines := res.value), rows)[y] == Row(LiveScreen(r, rows)[y].cells[x := v])
      && forall k :: 0 <= k < rows && k != y ==> LiveScreen(r.(lines := res.value), rows)[k] == LiveScreen(r, rows)[k]
  {
    var res := PutCell(r.lines, Phys(r, y), x, v);
    var c := r.lines[Phys(r, y)].cells;
    assert SetAt(c, x, v, Hole) == c[x := v];
    forall k | 0 <= k < rows && k != y
      ensures LiveScreen(r.(lines := res.value), rows)[k] == LiveScreen(r, rows)[k]
    {
      PhysInjective(r, rows, k, y);
    }
  }

  /** `eraseLine(x, y)` on a tidy state blanks the cursor's row from column
      `x` on and changes nothing else. */
  lemma EraseLineTidy(r: Ring, cols: nat, rows: nat, total: int, x: nat, y: int)
    requires Tidy(r, cols, rows, total) && 0 <= y < rows && x <= cols
    ensures var res := EraseLine(r, cols, x, y);
      && res.Some?
      && Tidy(r.(lines := res.value), cols, rows, total)
      && LiveScreen(r.(lines := res.value), rows)[y] == Row(LiveScreen(r, rows)[y].cells[..x] + Blanks(cols - x))
      && forall k :: 0 <= k < rows && k != y ==> LiveScreen(r.(lines := res.value), rows)[k] == LiveScreen(r, rows)[k]
  {
    var row := Phys(r, y);
    PhysInRange(r, rows, y);
    var c := r.lines[row].cells;
    FillFromTidy(c, x, cols);
    if x >= cols {
      assert c[..x] + Blanks(cols - x) == c;
    }
    var res := EraseLine(r, cols, x, y);
    forall k | 0 <= k < rows && k != y
      ensures LiveScreen(r.(lines := res.value), rows)[k] == LiveScreen(r, rows)[k]
    {
      PhysInjective(r, rows, k, y);
    }
  }

  /** Replacing the table row under screen row `y` by another full row
      changes that screen row only. */
  lemma ReplaceRow(r: Ring, cols: nat, rows: nat, total: int, y: int, c: seq<Cell>)
    requires Tidy(r, cols, rows, total) && 0 <= y < rows && |c| == cols
    ensures 0 <= Phys(r, y) < |r.lines|
    ensures var s := r.(lines := r.lines[Phys(r, y) := Row(c)]);
      && Tidy(s, cols, rows, total)
      && LiveScreen(s, rows)[y] == Row(c)
      && forall k :: 0 <= k < rows && k != y ==> LiveScreen(s, rows)[k] == LiveScreen(r, rows)[k]
  {
    var s := r.(lines := r.lines[Phys(r, y) := Row(c)]);
    forall k | 0 <= k < rows && k != y
      ensures LiveScreen(s, rows)[k] == LiveScreen(r, rows)[k]
    {
      PhysInjective(r, rows, k, y);
    }
  }

  /** The loop of `eraseInDisplay` blanks screen rows `j` to the bottom and
      keeps the rows above. */
  lemma {:induction false} EraseRowsFromTidy(r: Ring, j: int, cols: nat, rows: nat, total: int)
    requires Tidy(r, cols, rows, total) && 0 <= j
    ensures var res := EraseRowsFrom(r, j, cols, rows);
      && res.done
      && Tidy(r.(lines := res.lines), cols, rows, total)
      && forall k :: 0 <= k < rows ==>
           LiveScreen(r.(lines := res.lines), rows)[k] == if k < j then LiveScreen(r, rows)[k] else BlankRow(cols)
    decreases rows - j
  {
    if j < rows {
      EraseLineTidy(r, cols, rows, total, 0, j);
      var l := EraseLine(r, cols, 0, j).value;
      var c := LiveScreen(r, rows)[j].cells;
      assert c[..0] + Blanks(cols) == Blanks(cols);
      EraseRowsFromTidy(r.(lines := l), j + 1, cols, rows, total);
    }
  }

  /** `eraseInDisplay` (ED) blanks the cursor's row from the cursor on and
      every row below it, and keeps the rows above. */
  lemma EraseBelowTidy(r: Ring, cols: nat, rows: nat, total: int, x: nat, y: int)
    requires Tidy(r, cols, rows, total) && 0 <= y < rows && x <= cols
    ensures var res := EraseBelow(r, cols, rows, x, y);
      && res.done
      && Tidy(r.(lines := res.lines), cols, rows, total)
      && forall k :: 0 <= k < rows ==>
           LiveScreen(r.(lines := res.lines), rows)[k] ==
             if k < y then LiveScreen(r, rows)[k]
             else if k == y then Row(LiveScreen(r, rows)[y].cells[..x] + Blanks(cols - x))
             else BlankRow(cols)
  {
    EraseLineTidy(r, cols, rows, total, x, y);
    var l := EraseLine(r, cols, x, y).value;
    EraseRowsFromTidy(r.(lines := l), y + 1, cols, rows, total);
  }

  /** While `ybase + y` has not wrapped, the unwrapped index the character
      edits use is the cursor's row. */
  lemma NoWrapPhys(r: Ring, y: int)
    requires 0 <= r.base && 0 <= y && r.base + y < r.height
    ensures Phys(r, y) == r.base + y
  {
  }

  /** ICH on a tidy state whose cursor row has not wrapped: `k = min(n,
      cols - x)` blanks enter at the cursor, the rest of the row moves right
      and its last `k` cells are lost. */
  lemma InsertCharsTidy(r: Ring, cols: nat, rows: nat, total: int, x: nat, y: int, n: nat)
    requires Tidy(r, cols, rows, total) && 0 <= y < rows && r.base + y < r.height && x <= cols
    ensures var res := InsertChars(r.lines, r.base + y, x, n, cols);
      var c := LiveScreen(r, rows)[y].cells;
      var k := Min(n, cols - x);
      && res.Some?
      && Tidy(r.(lines := res.value), cols, rows, total)
      && LiveScreen(r.(lines := res.value), rows)[y] == Row(c[..x] + Blanks(k) + c[x..cols - k])
      && forall j :: 0 <= j < rows && j != y ==> LiveScreen(r.(lines := res.value), rows)[j] == LiveScreen(r, rows)[j]
  {
    NoWrapPhys(r, y);
    var c := r.lines[r.base + y].cells;
    var k := Min(n, cols - x);
    InsertBlanksTidy(c, x, n, cols, k);
    if n == 0 || x >= cols {
      assert c[..x] + Blanks(k) + c[x..cols - k] == c;
      assert r.lines[r.base + y := Row(c)] == r.lines;
    }
    ReplaceRow(r, cols, rows, total, y, c[..x] + Blanks(k) + c[x..cols - k]);
  }

  /** ECH on a tidy state whose cursor row has not wrapped: the
      `min(n, cols - x)` cells from the cursor on become blank. */
  lemma EraseCharsTidy(r: Ring, cols: nat, rows: nat, total: int, x: nat, y: int, n: nat)
    requires Tidy(r, cols, rows, total) && 0 <= y < rows && r.base + y < r.height && x <= cols
    ensures var res := EraseChars(r.lines, r.base + y, x, n, cols);
      var c := LiveScreen(r, rows)[y].cells;
      var k := Min(n, cols - x);
      && res.Some?
      && Tidy(r.(lines := res.value), cols, rows, total)
      && LiveScreen(r.(lines := res.value), rows)[y] == Row(c[..x] + Blanks(k) + c[x + k..])
      && forall j :: 0 <= j < rows && j != y ==> LiveScreen(r.(lines := res.value), rows)[j] == LiveScreen(r, rows)[j]
  {
    NoWrapPhys(r, y);
    var c := r.lines[r.base + y].cells;
    var k := Min(n, cols - x);
    EraseCellsTidy(c, x, n, cols);
    if n == 0 || x >= cols {
      assert c[..x] + Blanks(k) + c[x + k..] == c;
      assert r.lines[r.base + y := Row(c)] == r.lines;
    }
    ReplaceRow(r, cols, rows, total, y, c[..x] + Blanks(k) + c[x + k..]);
  }

  /** CBT on a tidy state whose cursor row has not wrapped: the
      `k = min(n, x)` cells left of the cursor are removed, the rest of the
      row closes up, `k` blanks fill its end and the cursor moves `k`
      columns left. */
  lemma BackTabTidy(r: Ring, cols: nat, rows: nat, total: int, x: nat, y: int, n: nat)
    requires Tidy(r, cols, rows, total) && 0 <= y < rows && r.base + y < r.height && x <= cols
    ensures var res := BackTab(r.lines, r.base + y, x, n);
      var c := LiveScreen(r, rows)[y].cells;
      var k := Min(n, x);
      && res.0.Some? && res.1 == x - k
      && Tidy(r.(lines := res.0.value), cols, rows, total)
      && LiveScreen(r.(lines := res.0.value), rows)[y] == Row(c[..x - k] + c[x..] + Blanks(k))
      && forall j :: 0 <= j < rows && j != y ==> LiveScreen(r.(lines := res.0.value), rows)[j] == LiveScreen(r, rows)[j]
  {
    NoWrapPhys(r, y);
    var c := r.lines[r.base + y].cells;
    var k := Min(n, x);
    Rows.BackTabTidy(c, x, n);
    if n == 0 || x == 0 {
      assert c[..x - k] + c[x..] + Blanks(k) == c;
      assert r.lines[r.base + y := Row(c)] == r.lines;
    }
    ReplaceRow(r, cols, rows, total, y, c[..x - k] + c[x..] + Blanks(k));
  }

  /** DCH as written, on a tidy state whose cursor row has not wrapped: the
      row loses the `n` cells at the cursor (or all up to its end) and gets
      nothing back, while the line table grows by `n` numbers. */
  lemma DeleteCharsAsWrittenTidy(r: Ring, cols: nat, rows: nat, total: int, x: nat, y: int, n: nat)
    requires Tidy(r, cols, rows, total) && 0 <= y < rows && r.base + y < r.height && x <= cols && n >= 1
    ensures var res := DeleteCharsAsWritten(r.lines, r.base + y, x, n);
      var c := LiveScreen(r, rows)[y].cells;
      && res.Some?
      && |res.value| == |r.lines| + n
      && res.value[r.base + y] == Row(c[..x] + c[Min(x + n, cols)..])
      && |res.value[r.base + y].cells| == cols - Min(n, cols - x)
      && (forall i :: |r.lines| <= i < |res.value| ==> res.value[i] == Number)
      && forall i :: 0 <= i < |r.lines| && i != r.base + y ==> res.value[i] == r.lines[i]
  {
    NoWrapPhys(r, y);
    var c := r.lines[r.base + y].cells;
    DeleteCellsCut(c, x, n);
  }

  /** DCH as intended, on a tidy state whose cursor row has not wrapped and
      a cursor inside the row: the `k = min(n, cols - x)` cells at the
      cursor leave, the rest of the row closes up, `k` blanks fill its end,
      and every other row and the table's length stay as they were. */
  lemma DeleteCharsTidy(r: Ring, cols: nat, rows: nat, total: int, x: nat, y: int, n: nat)
    requires Tidy(r, cols, rows, total) && 0 <= y < rows && r.base + y < r.height && x < cols
    ensures var res := DeleteChars(r.lines, r.base + y, x, n);
      var c := LiveScreen(r, rows)[y].cells;
      var k := Min(n, cols - x);
      && res.Some?
      && Tidy(r.(lines := res.value), cols, rows, total)
      && LiveScreen(r.(lines := res.value), rows)[y] == Row(c[..x] + c[x + k..] + Blanks(k))
      && forall j :: 0 <= j < rows && j != y ==> LiveScreen(r.(lines := res.value), rows)[j] == LiveScreen(r, rows)[j]
  {
    NoWrapPhys(r, y);
    var c := r.lines[r.base + y].cells;
    var k := Min(n, cols - x);
    DeleteShiftTidy(c, x, n, cols, k);
    if n == 0 {
      assert c[..x] + c[x + k..] + Blanks(k) == c;
      assert r.lines[r.base + y := Row(c)] == r.lines;
    }
    ReplaceRow(r, cols, rows, total, y, c[..x] + c[x + k..] + Blanks(k));
  }

  /** Past the wrap of the ring the unwrapped index of the character edits
      is outside the table, so ICH, ECH and DCH throw there instead of
      editing the cursor's row. */
  lemma CharEditsThrowPastWrap(r: Ring, cols: nat, rows: nat, total: int, x: nat, y: int, n: nat)
    requires Tidy(r, cols, rows, total) && r.base + y >= r.height && x < cols && n >= 1
    ensures InsertChars(r.lines, r.base + y, x, n, cols) == None
    ensures EraseChars(r.lines, r.base + y, x, n, cols) == None
    ensures DeleteChars(r.lines, r.base + y, x, n) == None
    ensures DeleteCharsAsWritten(r.lines, r.base + y, x, n) == None
  {
  }
}
