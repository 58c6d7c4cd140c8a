/** The line table of the terminal as a value, and the effect of each
    operation on it.

    `lines` is a JavaScript array whose entries are normally rows (arrays of
    cells).  It can also hold holes, created by assigning past its end, and
    numbers, which `deleteChars` pushes onto it.  Reading an index outside
    the array yields `undefined`, like a hole.  An edit through an entry
    that is not a row throws a `TypeError` in strict mode: the functions
    below return `None` for that outcome. */
module Screen {
  import opened Cells
  import opened JsArray
  import opened Rows
  import opened Viewport

  datatype Option<T> = None | Some(value: T)

  /** One entry of the line table. */
  datatype Entry = Row(cells: seq<Cell>) | Number | Absent

  /** `lines[i]` for any index: outside the array it is `undefined`. */
  function EntryAt(lines: seq<Entry>, i: int): (e: Entry)
    ensures !(0 <= i < |lines|) ==> e == Absent
  {
    if 0 <= i < |lines| then lines[i] else Absent
  }

  /** The row `blankLine` builds. */
  function BlankRow(cols: nat): Entry { Row(Blanks(cols)) }

  /** The ring buffer: the line table, `currentHeight` and `ybase`. */
  datatype Ring = Ring(lines: seq<Entry>, height: int, base: int)

  /** The table index of screen row `y`: `ybase + y`, wrapped once. */
  function Phys(r: Ring, y: int): int { WrapOnce(r.base, y, r.height) }

  /** `lines[row][x] = v`, the store of a printed character. */
  function PutCell(lines: seq<Entry>, row: int, x: nat, v: Cell): (r: Option<seq<Entry>>)
    ensures r.Some? <==> EntryAt(lines, row).Row?
    ensures r.Some? ==> |r.value| == |lines| && r.value[row] == Row(SetAt(lines[row].cells, x, v, Hole))
    ensures r.Some? ==> forall i :: 0 <= i < |lines| && i != row ==> r.value[i] == lines[i]
  {
    match EntryAt(lines, row)
    case Row(c) => Some(lines[row := Row(SetAt(c, x, v, Hole))])
    case _ => None
  }

  /** `eraseLine(x, y)`: blank the screen row `y` from column `x` to the
      right margin.  The loop does not run when `x >= cols`, so nothing can
      throw then. */
  function EraseLine(r: Ring, cols: nat, x: nat, y: int): (res: Option<seq<Entry>>)
    ensures x >= cols ==> res == Some(r.lines)
    ensures x < cols ==> (res.Some? <==> EntryAt(r.lines, Phys(r, y)).Row?)
  {
    var row := Phys(r, y);
    if x >= cols then Some(r.lines)
    else match EntryAt(r.lines, row)
      case Row(c) => Some(r.lines[row := Row(FillFrom(c, x, cols))])
      case _ => None
  }

  /** `scroll()`: grow the ring while it is below `totalHeight`, advance
      `ybase` round it, and put a blank row at the bottom of the scroll
      region; with a region that does not start at the top, take a row out
      at its top. */
  function Scroll(r: Ring, cols: nat, rows: nat, total: int, top: int, bottom: int): (res: Ring)
    requires r.base >= -1 && rows >= 1
    // the ring only grows, and only up to `total`; `ybase` stays inside it
    ensures r.base < r.height && 1 <= r.height ==>
      && r.height <= res.height && (res.height > r.height ==> res.height <= total)
      && -1 <= res.base < res.height
  {
    var s := ScrollIn(r, cols, rows, total, bottom);
    if top != 0 then Ring(Splice(s.lines, s.base - 1 + top, 1, []), s.height, s.base - 1)
    else s
  }

  /** The first part of `scroll()`, up to the blank row's arrival. */
  function ScrollIn(r: Ring, cols: nat, rows: nat, total: int, bottom: int): (res: Ring)
    requires r.base >= -1 && rows >= 1
    ensures r.base < r.height && 1 <= r.height ==>
      && r.height <= res.height && (res.height > r.height ==> res.height <= total)
      && 0 <= res.base < res.height
  {
    var h := if r.height < total then r.height + 1 else r.height;
    var b := NextBase(r.base, h);
    var row := WrapOnce(b, rows - 1, h);
    var below := rows - 1 - bottom;
    var l1 :=
      if row > bottom + b then Splice(r.lines, rows - 1 + b - below, 0, [BlankRow(cols)])
      else SetAt(r.lines, row, BlankRow(cols), Absent);
    Ring(l1, h, b)
  }

  /** The line feed that `write` (LF, VT, FF and the wrap of a printed
      character) and `index` perform: one row down, or a scroll at the
      bottom of the scroll region.  Returns the ring and the new `y`. */
  function Feed(r: Ring, y: int, cols: nat, rows: nat, total: int, top: int, bottom: int): (res: (Ring, int))
    requires r.base >= -1 && rows >= 1
    ensures y + 1 < bottom + 1 ==> res == (r, y + 1)
    ensures y + 1 >= bottom + 1 ==> res == (Scroll(r, cols, rows, total, top, bottom), y)
  {
    if y + 1 >= bottom + 1 then (Scroll(r, cols, rows, total, top, bottom), y) else (r, y + 1)
  }

  /** `ScrollIn` spelled out step by step, as `scroll()` computes it, with
      `line` the blank row it builds: the row is inserted below the region
      when the bottom row of the screen lies below it ... */
  lemma ScrollInBelow(r: Ring, cols: nat, rows: nat, total: int, bottom: int, h: int, b: int, row: int,
                      line: seq<Cell>, l: seq<Entry>)
    requires r.base >= -1 && rows >= 1 && line == Blanks(cols)
    requires h == if r.height < total then r.height + 1 else r.height
    requires b == NextBase(r.base, h) && row == WrapOnce(b, rows - 1, h) && row > bottom + b
    requires l == Splice(r.lines, rows - 1 + b - (rows - 1 - bottom), 0, [Row(line)])
    ensures ScrollIn(r, cols, rows, total, bottom) == Ring(l, h, b)
  {
  }

  /** ... and otherwise replaces that row. */
  lemma ScrollInPlace(r: Ring, cols: nat, rows: nat, total: int, bottom: int, h: int, b: int, row: int,
                      line: seq<Cell>, l: seq<Entry>)
    requires r.base >= -1 && rows >= 1 && line == Blanks(cols)
    requires h == if r.height < total then r.height + 1 else r.height
    requires b == NextBase(r.base, h) && row == WrapOnce(b, rows - 1, h) && row <= bottom + b
    requires row >= 0 && l == SetAt(r.lines, row, Row(line), Absent)
    ensures ScrollIn(r, cols, rows, total, bottom) == Ring(l, h, b)
  {
  }

  /** The second part of `scroll()`, given the first: a region that does not
      start at the top loses its top row ... */
  lemma ScrollOutTop(r: Ring, cols: nat, rows: nat, total: int, top: int, bottom: int,
                     l: seq<Entry>, h: int, b: int, l2: seq<Entry>, b2: int)
    requires r.base >= -1 && rows >= 1 && top != 0
    requires ScrollIn(r, cols, rows, total, bottom) == Ring(l, h, b)
    requires b2 == b - 1 && l2 == Splice(l, b2 + top, 1, [])
    ensures Scroll(r, cols, rows, total, top, bottom) == Ring(l2, h, b2)
  {
  }

  /** ... and with the region starting at the top nothing is taken out. */
  lemma ScrollOutNone(r: Ring, cols: nat, rows: nat, total: int, bottom: int, l: seq<Entry>, h: int, b: int)
    requires r.base >= -1 && rows >= 1
    requires ScrollIn(r, cols, rows, total, bottom) == Ring(l, h, b)
    ensures Scroll(r, cols, rows, total, 0, bottom) == Ring(l, h, b)
  {
  }

  // ---- the screen as the viewport shows it, and the tidy state ----

  /** The `rows` entries of the live screen, top to bottom. */
  function LiveScreen(r: Ring, rows: nat): seq<Entry> {
    seq(rows, k => EntryAt(r.lines, Phys(r, k)))
  }

  /** The state all operations start from after a reset, with the default
      scroll region: one full row per table slot, `ybase` inside the ring,
      and while the ring is still growing the live screen is its last
      `rows` rows. */
  predicate Tidy(r: Ring, cols: nat, rows: nat, total: int) {
    && 1 <= rows <= r.height
    && |r.lines| == r.height
    && (forall i :: 0 <= i < |r.lines| ==> r.lines[i].Row? && |r.lines[i].cells| == cols)
    && 0 <= r.base < r.height
    && (r.height < total ==> r.base + rows == r.height)
  }

  /** Distinct screen rows sit in distinct table slots. */
  lemma PhysInjective(r: Ring, rows: nat, j: int, k: int)
    requires 0 <= r.base < r.height && rows <= r.height
    requires 0 <= j < rows && 0 <= k < rows && j != k
    ensures Phys(r, j) != Phys(r, k)
    ensures 0 <= Phys(r, j) < r.height
  {
  }

  /** After the one-step advance of `ybase`, screen row `k` sits where screen
      row `k + 1` sat before. */
  lemma PhysAdvance(base: int, h: int, k: int)
    requires 0 <= base < h && 0 <= k && k + 1 < h
    ensures WrapOnce(NextBase(base, h), k, h) == WrapOnce(base, k + 1, h)
  {
  }

  /** The heart of the ring buffer: with the default scroll region, a scroll
      moves every row of the live screen up by one and puts a blank row at
      the bottom, and leaves the state tidy. */
  lemma ScrollShiftsScreen(r: Ring, cols: nat, rows: nat, total: int)
    requires Tidy(r, cols, rows, total)
    ensures var s := Scroll(r, cols, rows, total, 0, rows - 1);
      && Tidy(s, cols, rows, total)
      && LiveScreen(s, rows) == LiveScreen(r, rows)[1..] + [BlankRow(cols)]
  {
    var s := Scroll(r, cols, rows, total, 0, rows - 1);
    var old_ := LiveScreen(r, rows);
    var new_ := LiveScreen(s, rows);
    if r.height < total {
      ScrollGrowing(r, cols, rows, total);
    } else {
      ScrollFull(r, cols, rows, total);
    }
    assert new_ == old_[1..] + [BlankRow(cols)];
  }

  /** The growing case: the new row is appended to the table. */
  lemma ScrollGrowing(r: Ring, cols: nat, rows: nat, total: int)
    requires Tidy(r, cols, rows, total) && r.height < total
    ensures var s := Scroll(r, cols, rows, total, 0, rows - 1);
      && s == Ring(r.lines + [BlankRow(cols)], r.height + 1, r.base + 1)
      && Tidy(s, cols, rows, total)
      && forall k :: 0 <= k < rows ==>
           LiveScreen(s, rows)[k] == if k < rows - 1 then LiveScreen(r, rows)[k + 1] else BlankRow(cols)
  {
    var s := Scroll(r, cols, rows, total, 0, rows - 1);
    assert SetAt(r.lines, r.height, BlankRow(cols), Absent) == r.lines + [BlankRow(cols)];
    forall k | 0 <= k < rows
      ensures LiveScreen(s, rows)[k] == if k < rows - 1 then LiveScreen(r, rows)[k + 1] else BlankRow(cols)
    {
      assert Phys(s, k) == r.base + 1 + k;
      if k < rows - 1 {
        assert Phys(r, k + 1) == r.base + 1 + k;
      }
    }
  }

  /** The full case: the oldest row of the ring is overwritten by the blank
      one. */
  lemma ScrollFull(r: Ring, cols: nat, rows: nat, total: int)
    requires Tidy(r, cols, rows, total) && r.height >= total
    ensures var s := Scroll(r, cols, rows, total, 0, rows - 1);
      && Tidy(s, cols, rows, total)
      && forall k :: 0 <= k < rows ==>
           LiveScreen(s, rows)[k] == if k < rows - 1 then LiveScreen(r, rows)[k + 1] else BlankRow(cols)
  {
    var h := r.height;
    var b := NextBase(r.base, h);
    var row := WrapOnce(b, rows - 1, h);
    var s := Scroll(r, cols, rows, total, 0, rows - 1);
    assert s == Ring(r.lines[row := BlankRow(cols)], h, b);
    forall k | 0 <= k < rows
      ensures LiveScreen(s, rows)[k] == if k < rows - 1 then LiveScreen(r, rows)[k + 1] else BlankRow(cols)
    {
      if k < rows - 1 {
        PhysInjective(s, rows, k, rows - 1);
        PhysAdvance(r.base, h, k);
      }
    }
  }

  // ---- the remaining operations on the table ----

  /** The line table after an operation that can throw part-way through,
      and whether it ran to its end (`done`).  After a throw the table is
      as the steps before it left it. */
  datatype Edit = Edit(lines: seq<Entry>, done: bool)

  /** The table index of the scroll region's bottom row, unwrapped, as the
      line-editing handlers compute it: `rows - 1 + ybase - (rows - 1 -
      scrollBottom)`. */
  function RegionEnd(base: int, rows: int, bottom: int): (j: int)
    ensures j == base + bottom
  {
    rows - 1 + base - (rows - 1 - bottom)
  }

  /** One turn of `insertLines`, and the work of `reverseIndex` at the top
      of the scroll region: an empty array goes in at `y + ybase` (not
      wrapped), `eraseLine(x, y)` fills the row the cursor is on, and the
      entry below the region is taken out. */
  function OpenRow(r: Ring, cols: nat, rows: nat, bottom: int, x: nat, y: int): Edit {
    SpliceTurn(r, cols, y + r.base, x, y, RegionEnd(r.base, rows, bottom) + 1)
  }

  /** The shape the line-editing handlers share: an empty array goes in at
      table index `at`, `eraseLine(x, ey)` fills a row, and the entry at
      `out` (an index into the lengthened table) is taken out. */
  function SpliceTurn(r: Ring, cols: nat, at: int, x: nat, ey: int, out: int): Edit {
    var l1 := Splice(r.lines, at, 0, [Row([])]);
    match EraseLine(Ring(l1, r.height, r.base), cols, x, ey)
    case None => Edit(l1, false)
    case Some(l2) => Edit(Splice(l2, out, 1, []), true)
  }

  /** `insertLines`: `n` turns of `OpenRow` at the cursor's row, from
      column 0, stopping at the first throw. */
  function InsertLines(r: Ring, n: nat, cols: nat, rows: nat, bottom: int, y: int): Edit
    decreases n
  {
    if n == 0 then Edit(r.lines, true)
    else
      var t := InsertLines(r, n - 1, cols, rows, bottom, y);
      if !t.done then t else OpenRow(Ring(t.lines, r.height, r.base), cols, rows, bottom, 0, y)
  }

  /** A throw ends `insertLines`: the turns after it do not run. */
  lemma {:induction false} InsertLinesStops(r: Ring, m: nat, n: nat, cols: nat, rows: nat, bottom: int, y: int)
    requires m <= n && !InsertLines(r, m, cols, rows, bottom, y).done
    ensures InsertLines(r, n, cols, rows, bottom, y) == InsertLines(r, m, cols, rows, bottom, y)
    decreases n
  {
    if n > m {
      InsertLinesStops(r, m, n - 1, cols, rows, bottom, y);
    }
  }

  /** One turn of `deleteLines` as the source writes it: an empty array
      goes in below the region, then `eraseLine(0, j - ybase)` erases the
      region's bottom screen row, which is still the old one since the new
      entry sits below it, and the entry at `y + ybase` is taken out. */
  function CloseRowAsWritten(r: Ring, cols: nat, rows: nat, bottom: int, y: int): Edit {
    var j := RegionEnd(r.base, rows, bottom);
    SpliceTurn(r, cols, j + 1, 0, j - r.base, y + r.base)
  }

  /** `deleteLines` as written: `n` turns of `CloseRowAsWritten` at the
      cursor's row, stopping at the first throw of the erase. */
  function DeleteLinesAsWritten(r: Ring, n: nat, cols: nat, rows: nat, bottom: int, y: int): Edit
    decreases n
  {
    if n == 0 then Edit(r.lines, true)
    else
      var t := DeleteLinesAsWritten(r, n - 1, cols, rows, bottom, y);
      if !t.done then t else CloseRowAsWritten(Ring(t.lines, r.height, r.base), cols, rows, bottom, y)
  }

  /** A throw ends `deleteLines`: the turns after it do not run. */
  lemma {:induction false} DeleteLinesAsWrittenStops(r: Ring, m: nat, n: nat, cols: nat, rows: nat, bottom: int,
                                                     y: int)
    requires m <= n && !DeleteLinesAsWritten(r, m, cols, rows, bottom, y).done
    ensures DeleteLinesAsWritten(r, n, cols, rows, bottom, y) == DeleteLinesAsWritten(r, m, cols, rows, bottom, y)
    decreases n
  {
    if n > m {
      DeleteLinesAsWrittenStops(r, m, n - 1, cols, rows, bottom, y);
    }
  }

  /** One turn of `deleteLines` as intended: a blank row enters below the
      region and the entry at `y + ybase` is taken out.  Nothing is edited
      in place, so nothing can throw. */
  function CloseRow(r: Ring, cols: nat, rows: nat, bottom: int, y: int): Edit {
    var j := RegionEnd(r.base, rows, bottom);
    Edit(Splice(Splice(r.lines, j + 1, 0, [BlankRow(cols)]), y + r.base, 1, []), true)
  }

  /** `deleteLines` as intended: `n` turns of `CloseRow`, which cannot
      throw. */
  function DeleteLines(r: Ring, n: nat, cols: nat, rows: nat, bottom: int, y: int): Edit
    decreases n
  {
    if n == 0 then Edit(r.lines, true)
    else CloseRow(Ring(DeleteLines(r, n - 1, cols, rows, bottom, y).lines, r.height, r.base), cols, rows, bottom, y)
  }

  /** The loop of `eraseInDisplay` after its first row: erase screen rows
      `j` to `rows - 1` completely. */
  function EraseRowsFrom(r: Ring, j: int, cols: nat, rows: nat): Edit
    decreases rows - j
  {
    if j >= rows then Edit(r.lines, true)
    else match EraseLine(r, cols, 0, j)
      case None => Edit(r.lines, false)
      case Some(l) => EraseRowsFrom(r.(lines := l), j + 1, cols, rows)
  }

  /** `eraseInDisplay`: erase from the cursor to the end of the screen. */
  function EraseBelow(r: Ring, cols: nat, rows: nat, x: nat, y: int): Edit {
    match EraseLine(r, cols, x, y)
    case None => Edit(r.lines, false)
    case Some(l) => EraseRowsFrom(r.(lines := l), y + 1, cols, rows)
  }

  /** `insertChars` on the entry `row = y + ybase` (not wrapped). */
  function InsertChars(lines: seq<Entry>, row: int, x: nat, n: nat, cols: nat): Option<seq<Entry>> {
    if n == 0 || x >= cols then Some(lines)
    else match EntryAt(lines, row)
      case Row(c) => Some(lines[row := Row(InsertBlanks(c, x, n, cols))])
      case _ => None
  }

  /** `eraseChars` on the entry `row = y + ybase` (not wrapped). */
  function EraseChars(lines: seq<Entry>, row: int, x: nat, n: nat, cols: nat): Option<seq<Entry>> {
    if n == 0 || x >= cols then Some(lines)
    else match EntryAt(lines, row)
      case Row(c) => Some(lines[row := Row(EraseCells(c, x, n, cols))])
      case _ => None
  }

  /** `n` copies of the number `deleteChars` pushes. */
  function Numbers(n: nat): (r: seq<Entry>)
    ensures |r| == n && forall k :: 0 <= k < n ==> r[k] == Number
  {
    seq(n, _ => Number)
  }

  /** `deleteChars` as written, on the entry `row = y + ybase` (not
      wrapped): each turn takes a cell out of the row and pushes a blank
      cell value onto the line table itself, not onto the row. */
  function DeleteCharsAsWritten(lines: seq<Entry>, row: int, x: nat, n: nat): Option<seq<Entry>> {
    if n == 0 then Some(lines)
    else match EntryAt(lines, row)
      case Row(c) => Some(lines[row := Row(DeleteCells(c, x, n))] + Numbers(n))
      case _ => None
  }

  /** `deleteChars` as intended: each turn takes a cell out of the row and
      pushes the blank onto the same row. */
  function DeleteChars(lines: seq<Entry>, row: int, x: nat, n: nat): Option<seq<Entry>> {
    if n == 0 then Some(lines)
    else match EntryAt(lines, row)
      case Row(c) => Some(lines[row := Row(DeleteShift(c, x, n))])
      case _ => None
  }

  /** `cursorBackwardTab` on the entry `row = y + ybase`: the new table (or
      the throw) and the new column.  Through a number the decrement of `x`
      in the argument happens before the call fails; through `undefined`
      reading `line.splice` fails first. */
  function BackTab(lines: seq<Entry>, row: int, x: nat, n: nat): (Option<seq<Entry>>, nat) {
    if n == 0 || x == 0 then (Some(lines), x)
    else match EntryAt(lines, row)
      case Row(c) => (Some(lines[row := Row(BackTabRow(c, x, n))]), BackTabX(x, n))
      case Number => (None, x - 1)
      case Absent => (None, x)
  }

  /** The table `reset` builds: `rows` blank rows. */
  function FreshLines(cols: nat, rows: nat): (r: seq<Entry>)
    ensures |r| == rows && forall k :: 0 <= k < rows ==> r[k] == BlankRow(cols)
  {
    seq(rows, _ => BlankRow(cols))
  }

  /** A reset leaves the tidy state. */
  lemma FreshTidy(cols: nat, rows: nat, total: int)
    requires rows >= 1
    ensures Tidy(Ring(FreshLines(cols, rows), rows, 0), cols, rows, total)
    ensures LiveScreen(Ring(FreshLines(cols, rows), rows, 0), rows) == FreshLines(cols, rows)
  {
  }
}
