/** The in-row edits of the terminal as functions on one row of cells.

    Each recursive function takes one turn of the corresponding JavaScript
    loop per call, so the methods of `Terminal.Term` are proved against
    them turn by turn; the lemmas beside them give the closed form for a
    row of exactly `cols` cells, which is what the edits mean. */
module Rows {
  import opened Cells
  import opened JsArray

  /** `n` blank cells. */
  function Blanks(n: nat): (r: seq<Cell>)
    ensures |r| == n && forall k :: 0 <= k < n ==> r[k] == Blank
  {
    seq(n, _ => Blank)
  }

  // ---- eraseLine: `for (i = x; i < cols; i++) line[i] = ch;` ----

  function FillFrom(row: seq<Cell>, i: nat, cols: nat): seq<Cell>
    decreases cols - i
  {
    if i >= cols then row else FillFrom(SetAt(row, i, Blank, Hole), i + 1, cols)
  }

  /** Erasing from column `x` blanks columns `x` to `cols - 1`, extends a
      short row to `cols` cells (the skipped cells become holes) and keeps
      every other cell. */
  lemma {:induction false} FillFromCells(row: seq<Cell>, i: nat, cols: nat)
    ensures var r := FillFrom(row, i, cols);
      && |r| == (if i < cols && |row| < cols then cols else |row|)
      && forall k :: 0 <= k < |r| ==>
           r[k] == if i <= k < cols then Blank else if k < |row| then row[k] else Hole
    decreases cols - i
  {
    if i < cols {
      var row' := SetAt(row, i, Blank, Hole);
      FillFromCells(row', i + 1, cols);
    }
  }

  /** On a row of exactly `cols` cells, erasing from `x` keeps `row[..x]`
      and blanks the rest. */
  lemma FillFromTidy(row: seq<Cell>, x: nat, cols: nat)
    requires |row| == cols && x <= cols
    ensures FillFrom(row, x, cols) == row[..x] + Blanks(cols - x)
  {
    FillFromCells(row, x, cols);
  }

  /** Erasing a fresh empty array from column 0 gives a row of blanks. */
  lemma FillFromEmpty(cols: nat)
    ensures FillFrom([], 0, cols) == Blanks(cols)
  {
    FillFromCells([], 0, cols);
  }

  // ---- insertChars: `while (param-- && j < cols) { line.splice(j++, 0, ch); line.pop(); }` ----

  function InsertBlanks(row: seq<Cell>, j: nat, n: nat, cols: nat): seq<Cell>
    decreases n
  {
    if n == 0 || j >= cols then row
    else InsertBlanks(Pop(Splice(row, j, 0, [Blank])), j + 1, n - 1, cols)
  }

  /** One turn of the ICH loop on a full row. */
  lemma InsertOne(row: seq<Cell>, x: nat, cols: nat)
    requires |row| == cols && x < cols
    ensures Pop(Splice(row, x, 0, [Blank])) == row[..x] + [Blank] + row[x..cols - 1]
  {
    var t := Splice(row, x, 0, [Blank]);
    assert t == row[..x] + [Blank] + row[x..];
    assert Pop(t) == t[..cols];
  }

  /** ICH on a full row: `k = min(n, cols - x)` blanks enter at the cursor,
      the cells from the cursor on move right by `k` and the last `k` cells
      fall off the end; the row keeps its length.  (`k` is a parameter so
      that the induction step matches its hypothesis term for term.) */
  lemma {:induction false} InsertBlanksTidy(row: seq<Cell>, x: nat, n: nat, cols: nat, k: nat)
    requires |row| == cols && x <= cols && k == Min(n, cols - x)
    ensures InsertBlanks(row, x, n, cols) == row[..x] + Blanks(k) + row[x..cols - k]
    decreases n
  {
    if n == 0 || x >= cols {
      assert row[..x] + Blanks(0) + row[x..cols] == row;
    } else {
      var row' := row[..x] + [Blank] + row[x..cols - 1];
      InsertOne(row, x, cols);
      InsertBlanksTidy(row', x + 1, n - 1, cols, k - 1);
      InsertStepJoin(row[..x], row[x..cols - 1], row, row', x, k, cols);
    }
  }

  /** The bookkeeping step of `InsertBlanksTidy`. */
  lemma InsertStepJoin(a: seq<Cell>, b: seq<Cell>, row: seq<Cell>, row': seq<Cell>, x: nat, k: nat, cols: nat)
    requires |row| == cols && 1 <= k <= cols - x && a == row[..x] && b == row[x..cols - 1]
    requires row' == a + [Blank] + b
    ensures row'[..x + 1] + Blanks(k - 1) + row'[x + 1..cols - (k - 1)] == row[..x] + Blanks(k) + row[x..cols - k]
  {
    assert row'[..x + 1] == a + [Blank];
    assert row'[x + 1..] == b;
    assert b[..cols - k - x] == row[x..cols - k];
    assert row'[x + 1..cols - (k - 1)] == row[x..cols - k];
    assert Blanks(k) == [Blank] + Blanks(k - 1);
  }

  // ---- deleteChars: `while (param--) { line.splice(x, 1); ... }` ----

  function DeleteCells(row: seq<Cell>, x: nat, n: nat): seq<Cell>
    decreases n
  {
    if n == 0 then row else DeleteCells(Splice(row, x, 1, []), x, n - 1)
  }

  /** DCH removes `n` cells at the cursor, or all of them up to the end of
      the row when fewer are left; nothing enters the row. */
  lemma {:induction false} DeleteCellsCut(row: seq<Cell>, x: nat, n: nat)
    requires x <= |row|
    ensures DeleteCells(row, x, n) == row[..x] + row[Min(x + n, |row|)..]
    decreases n
  {
    if n > 0 {
      var row' := Splice(row, x, 1, []);
      assert row' == row[..x] + row[Min(x + 1, |row|)..];
      DeleteCellsCut(row', x, n - 1);
      assert row'[..x] == row[..x];
      assert row'[Min(x + n - 1, |row'|)..] == row[Min(x + n, |row|)..];
    }
  }

  /** DCH with the blank pushed onto the row, as the handler evidently
      intends: each turn takes the cell at the cursor out and appends a
      blank to the row. */
  function DeleteShift(row: seq<Cell>, x: nat, n: nat): seq<Cell>
    decreases n
  {
    if n == 0 then row else DeleteShift(Splice(row, x, 1, []) + [Blank], x, n - 1)
  }

  /** On a full row with the cursor inside it, the `k = min(n, cols - x)`
      cells at the cursor leave, the rest of the row closes up and `k`
      blanks fill its end; the row keeps its length.  (`k` is a parameter
      for the same reason as in `InsertBlanksTidy`.) */
  lemma {:induction false} DeleteShiftTidy(row: seq<Cell>, x: nat, n: nat, cols: nat, k: nat)
    requires |row| == cols && x < cols && k == Min(n, cols - x)
    ensures DeleteShift(row, x, n) == row[..x] + row[x + k..] + Blanks(k)
    decreases n
  {
    if n == 0 {
      assert row[..x] + row[x..] + Blanks(0) == row;
    } else {
      var row' := row[..x] + row[x + 1..] + [Blank];
      DeleteOne(row, x);
      DeleteShiftTidy(row', x, n - 1, cols, Min(n - 1, cols - x));
      DeleteStepJoin(row, row', x, n, k, cols);
    }
  }

  /** One turn of the intended DCH loop. */
  lemma DeleteOne(row: seq<Cell>, x: nat)
    requires x < |row|
    ensures Splice(row, x, 1, []) + [Blank] == row[..x] + row[x + 1..] + [Blank]
  { }

  /** The bookkeeping step of `DeleteShiftTidy`. */
  lemma DeleteStepJoin(row: seq<Cell>, row': seq<Cell>, x: nat, n: nat, k: nat, cols: nat)
    requires |row| == cols && x < cols && 1 <= n && k == Min(n, cols - x)
    requires row' == row[..x] + row[x + 1..] + [Blank]
    ensures var k' := Min(n - 1, cols - x);
      row'[..x] + row'[x + k'..] + Blanks(k') == row[..x] + row[x + k..] + Blanks(k)
  {
    assert row'[..x] == row[..x];
    if n <= cols - x {
      assert row'[x + (k - 1)..] == row[x + k..] + [Blank];
      assert [Blank] + Blanks(k - 1) == Blanks(k);
    } else {
      assert row'[x + k..] == [] && row[x + k..] == [];
    }
  }

  // ---- eraseChars: `while (param-- && j < cols) line[j++] = ch;` ----

  function EraseCells(row: seq<Cell>, j: nat, n: nat, cols: nat): seq<Cell>
    decreases n
  {
    if n == 0 || j >= cols then row
    else EraseCells(SetAt(row, j, Blank, Hole), j + 1, n - 1, cols)
  }

  /** ECH on a full row blanks the `min(n, cols - x)` cells from the cursor
      on, in place. */
  lemma {:induction false} EraseCellsTidy(row: seq<Cell>, x: nat, n: nat, cols: nat)
    requires |row| == cols && x <= cols
    ensures var k := Min(n, cols - x);
      EraseCells(row, x, n, cols) == row[..x] + Blanks(k) + row[x + k..]
    decreases n
  {
    if n == 0 || x >= cols {
      assert row[..x] + Blanks(0) + row[x..] == row;
    } else {
      var row' := SetAt(row, x, Blank, Hole);
      EraseCellsTidy(row', x + 1, n - 1, cols);
      var k := Min(n, cols - x);
      assert Min(n - 1, cols - x - 1) == k - 1;
      assert row'[..x + 1] + Blanks(k - 1) == row[..x] + Blanks(k);
      assert row'[x + 1 + (k - 1)..] == row[x + k..];
    }
  }

  // ---- cursorBackwardTab:
  //      `while (param--) { if (x !== 0) { line.splice(--x, 1); line.push(ch); } else break; }` ----

  /** The row after the loop. */
  function BackTabRow(row: seq<Cell>, x: nat, n: nat): seq<Cell>
    decreases n
  {
    if n == 0 || x == 0 then row
    else BackTabRow(Splice(row, x - 1, 1, []) + [Blank], x - 1, n - 1)
  }

  /** The cursor column after the loop: `n` steps left, stopping at 0. */
  function BackTabX(x: nat, n: nat): (r: nat)
    ensures r == if n <= x then x - n else 0
  {
    if n <= x then x - n else 0
  }

  /** CBT on a row of exactly `cols` cells with the cursor inside it: the
      `k = min(n, x)` cells left of the cursor are deleted, the rest of the
      row moves left and `k` blanks fill the end. */
  lemma {:induction false} BackTabTidy(row: seq<Cell>, x: nat, n: nat)
    requires x <= |row|
    ensures var k := Min(n, x);
      BackTabRow(row, x, n) == row[..x - k] + row[x..] + Blanks(k)
    decreases n
  {
    if n == 0 || x == 0 {
      assert row[..x] + row[x..] + Blanks(0) == row;
    } else {
      var row' := Splice(row, x - 1, 1, []) + [Blank];
      assert row' == row[..x - 1] + row[x..] + [Blank];
      BackTabTidy(row', x - 1, n - 1);
      var k := Min(n, x);
      assert Min(n - 1, x - 1) == k - 1;
      assert row'[..x - 1 - (k - 1)] == row[..x - k];
      assert row'[x - 1..] == row[x..] + [Blank];
      assert row[x..] + [Blank] + Blanks(k - 1) == row[x..] + Blanks(k);
    }
  }

  /** Each of these edits keeps a full row full. */
  lemma EditsKeepWidth(row: seq<Cell>, x: nat, n: nat, cols: nat)
    requires |row| == cols && x <= cols
    ensures |FillFrom(row, x, cols)| == cols
    ensures |InsertBlanks(row, x, n, cols)| == cols
    ensures |EraseCells(row, x, n, cols)| == cols
    ensures |BackTabRow(row, x, n)| == cols
  {
    FillFromTidy(row, x, cols);
    InsertBlanksTidy(row, x, n, cols, Min(n, cols - x));
    EraseCellsTidy(row, x, n, cols);
    BackTabTidy(row, x, n);
  }
}
