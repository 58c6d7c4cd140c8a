/** The terminal object: the fields `Term` keeps, and its methods, each
    proved against the functions of `Screen`, `Rows`, `Viewport`, `Motion`,
    `Sgr` and `Parser` that say what it computes.

    A method that can run into the `TypeError` of an edit through an entry
    of the line table that is not a row returns `ok == false`; the fields it
    changed before the throw keep their new values, as they do in the
    source. */
module Terminal {
  import opened Cells
  import opened JsArray
  import opened Rows
  import opened Viewport
  import opened Screen
  import opened Motion
  import Parser
  import Sgr
  import Decimal
  import LineLaws
  import Effects

  /** `blankLine()`: a fresh row of `cols` blank cells. */
  method BlankLine(cols: nat) returns (line: seq<Cell>)
    ensures line == Blanks(cols)
  {
    line := [];
    var i := 0;
    while i < cols
      invariant 0 <= i <= cols && line == Blanks(i)
    {
      line := SetAt(line, i, Pack(32, DefAttr), Hole);
      i := i + 1;
    }
  }

  /** The table `reset()` builds: a blank row, then `rows - 1` copies of
      it. */
  method FreshTable(cols: nat, rows: nat) returns (table: seq<Entry>)
    requires rows >= 1
    ensures table == FreshLines(cols, rows)
  {
    var first := BlankLine(cols);
    table := [Row(first)];
    var j := rows - 1;
    while j > 0
      invariant 0 <= j <= rows - 1 && table == FreshLines(cols, rows - j)
    {
      table := table + [table[0]];
      j := j - 1;
    }
  }

  /** The steps of `scroll()` on the line table, its height and `ybase`:
      grow the ring until it is full, advance `ybase` (wrapping it to 0),
      build a blank row, insert it below the scroll region or store it in
      place, and take out the region's top row when the region does not
      start at the top. */
  method ScrollTable(lines: seq<Entry>, height: int, ybase: int, cols: nat, rows: nat, total: int,
                     top: int, bottom: int)
    returns (l: seq<Entry>, h: int, base: int)
    requires -1 <= ybase < height && 1 <= rows <= height
    ensures Ring(l, h, base) == Screen.Scroll(Ring(lines, height, ybase), cols, rows, total, top, bottom)
    ensures height <= h && (h > height ==> h <= total) && -1 <= base < h
  {
    ghost var r := Ring(lines, height, ybase);
    h := height;
    if h < total {
      h := h + 1;
    }
    base := ybase + 1;
    if base == h {
      base := 0;
    }
    var line := BlankLine(cols);
    var row := base + rows - 1;
    if row >= h {
      row := row - h;
    }
    l := lines;
    var b := bottom + base;
    if row > b {
      var j := rows - 1 - bottom;
      l := Splice(l, rows - 1 + base - j, 0, [Row(line)]);
      ScrollInBelow(r, cols, rows, total, bottom, h, base, row, line, l);
    } else {
      l := SetAt(l, row, Row(line), Absent);
      ScrollInPlace(r, cols, rows, total, bottom, h, base, row, line, l);
    }
    ghost var l1, b1 := l, base;
    if top != 0 {
      base := base - 1;
      l := Splice(l, base + top, 1, []);
      ScrollOutTop(r, cols, rows, total, top, bottom, l1, h, b1, l, base);
    } else {
      ScrollOutNone(r, cols, rows, total, bottom, l, h, base);
    }
  }

  /** The loop of `eraseLine(x, y)` on the line table: blank the screen
      row `y` from column `x` to the right margin, or fail on an entry that
      is not a row. */
  method EraseRow(lines: seq<Entry>, height: int, ybase: int, cols: nat, ex: nat, ey: int)
    returns (res: Option<seq<Entry>>)
    ensures res == Screen.EraseLine(Ring(lines, height, ybase), cols, ex, ey)
  {
    var row := ybase + ey;
    if row >= height {
      row := row - height;
    }
    if ex >= cols {
      return Some(lines);
    }
    var e := EntryAt(lines, row);
    if !e.Row? {
      return None;
    }
    var line := e.cells;
    var i := ex;
    while i < cols
      invariant ex <= i <= cols
      invariant FillFrom(line, i, cols) == FillFrom(e.cells, ex, cols)
    {
      line := SetAt(line, i, Pack(32, DefAttr), Hole);
      i := i + 1;
    }
    res := Some(lines[row := Row(line)]);
  }

  /** `SpliceTurn` on the line table: insert an empty row at index `at`,
      erase screen row `ey` from column `x` on, and take out the entry at
      `out`. */
  method SpliceTurnTable(lines: seq<Entry>, height: int, ybase: int, cols: nat,
                         at: int, x: nat, ey: int, out: int)
    returns (res: Edit)
    ensures res == SpliceTurn(Ring(lines, height, ybase), cols, at, x, ey, out)
  {
    var l := Splice(lines, at, 0, [Row([])]);
    var e := EraseRow(l, height, ybase, cols, x, ey);
    if e.None? {
      return Edit(l, false);
    }
    res := Edit(Splice(e.value, out, 1, []), true);
  }

  /** `OpenRow` on the line table: insert an empty row at the cursor's
      entry, erase it from the column on, and take out the entry below the
      region. */
  method OpenRowTable(lines: seq<Entry>, height: int, ybase: int, cols: nat, rows: nat,
                      bottom: int, ex: nat, ey: int)
    returns (res: Edit)
    ensures res == OpenRow(Ring(lines, height, ybase), cols, rows, bottom, ex, ey)
  {
    res := SpliceTurnTable(lines, height, ybase, cols, ey + ybase, ex, ey, RegionEnd(ybase, rows, bottom) + 1);
  }

  /** `CloseRowAsWritten` on the line table: insert an empty row below the
      region, erase the region's bottom screen row (still the old one),
      and take out the cursor's entry. */
  method CloseRowTable(lines: seq<Entry>, height: int, ybase: int, cols: nat, rows: nat,
                       bottom: int, ey: int)
    returns (res: Edit)
    ensures res == CloseRowAsWritten(Ring(lines, height, ybase), cols, rows, bottom, ey)
  {
    var j := RegionEnd(ybase, rows, bottom);
    res := SpliceTurnTable(lines, height, ybase, cols, j + 1, 0, j - ybase, ey + ybase);
  }

  /** The loop of `insertChars` on the entry `row`: `n` turns (while the
      column is inside the screen) of inserting a blank at the column and
      popping the row's last cell. */
  method InsertCharsTable(lines: seq<Entry>, row: int, x: nat, n: nat, cols: nat)
    returns (res: Option<seq<Entry>>)
    ensures res == Screen.InsertChars(lines, row, x, n, cols)
  {
    if n == 0 || x >= cols {
      return Some(lines);
    }
    var e := EntryAt(lines, row);
    if !e.Row? {
      return None;
    }
    var line := e.cells;
    var j, k := x, n;
    while k > 0 && j < cols
      invariant x <= j && 0 <= k <= n
      invariant InsertBlanks(line, j, k, cols) == InsertBlanks(e.cells, x, n, cols)
    {
      line := Pop(Splice(line, j, 0, [Blank]));
      j, k := j + 1, k - 1;
    }
    res := Some(lines[row := Row(line)]);
  }

  /** The loop of `eraseChars` on the entry `row`: `n` blanks stored from
      the column on, stopping at the right margin. */
  method EraseCharsTable(lines: seq<Entry>, row: int, x: nat, n: nat, cols: nat)
    returns (res: Option<seq<Entry>>)
    ensures res == Screen.EraseChars(lines, row, x, n, cols)
  {
    if n == 0 || x >= cols {
      return Some(lines);
    }
    var e := EntryAt(lines, row);
    if !e.Row? {
      return None;
    }
    var line := e.cells;
    var j, k := x, n;
    while k > 0 && j < cols
      invariant x <= j && 0 <= k <= n
      invariant EraseCells(line, j, k, cols) == EraseCells(e.cells, x, n, cols)
    {
      line := SetAt(line, j, Blank, Hole);
      j, k := j + 1, k - 1;
    }
    res := Some(lines[row := Row(line)]);
  }

  /** The loop of `deleteChars`: `n` turns of taking the cell at the
      column out of the entry `row` and pushing the blank cell value onto
      the line table. */
  method DeleteCharsTable(lines: seq<Entry>, row: int, x: nat, n: nat)
    returns (res: Option<seq<Entry>>)
    ensures res == Screen.DeleteCharsAsWritten(lines, row, x, n)
  {
    if n == 0 {
      return Some(lines);
    }
    var e := EntryAt(lines, row);
    if !e.Row? {
      return None;
    }
    var line, l, k := e.cells, lines, n;
    while k > 0
      invariant 0 <= row < |lines| && 0 <= k <= n
      invariant DeleteCells(line, x, k) == DeleteCells(e.cells, x, n)
      invariant l == lines + Numbers(n - k)
    {
      line := Splice(line, x, 1, []);
      l := l + [Number];
      k := k - 1;
    }
    assert l[row := Row(line)] == lines[row := Row(line)] + Numbers(n);
    res := Some(l[row := Row(line)]);
  }

  /** The loop of `cursorBackwardTab` on the entry `row`, with the column:
      up to `n` turns of stepping left and moving the rest of the row one
      cell left over it. */
  method BackTabTable(lines: seq<Entry>, row: int, x: nat, n: nat)
    returns (res: Option<seq<Entry>>, nx: nat)
    ensures (res, nx) == Screen.BackTab(lines, row, x, n)
  {
    if n == 0 || x == 0 {
      return Some(lines), x;
    }
    var e := EntryAt(lines, row);
    if e.Number? {
      // `--this.x` is evaluated before the call of `undefined` fails
      return None, x - 1;
    } else if e.Absent? {
      return None, x;
    }
    var line, k := e.cells, n;
    nx := x;
    while k > 0 && nx != 0
      invariant BackTabRow(line, nx, k) == BackTabRow(e.cells, x, n)
      invariant BackTabX(nx, k) == BackTabX(x, n)
    {
      nx := nx - 1;
      line := Splice(line, nx, 1, []) + [Blank];
      k := k - 1;
    }
    res := Some(lines[row := Row(line)]);
  }

  /** The loop of `insertLines`: `n` turns of `OpenRowTable` from column
      0, stopping at the first throw. */
  method InsertLinesTable(lines: seq<Entry>, height: int, ybase: int, n: nat, cols: nat, rows: nat,
                          bottom: int, ey: int)
    returns (res: Edit)
    ensures res == Screen.InsertLines(Ring(lines, height, ybase), n, cols, rows, bottom, ey)
  {
    var l, k := lines, 0;
    while k < n
      invariant k <= n
      invariant Screen.InsertLines(Ring(lines, height, ybase), k, cols, rows, bottom, ey) == Edit(l, true)
    {
      var t := OpenRowTable(l, height, ybase, cols, rows, bottom, 0, ey);
      if !t.done {
        Screen.InsertLinesStops(Ring(lines, height, ybase), k + 1, n, cols, rows, bottom, ey);
        return t;
      }
      l, k := t.lines, k + 1;
    }
    res := Edit(l, true);
  }

  /** The loop of `deleteLines`: `n` turns of `CloseRowTable`, stopping at
      the first throw. */
  method DeleteLinesTable(lines: seq<Entry>, height: int, ybase: int, n: nat, cols: nat, rows: nat,
                          bottom: int, ey: int)
    returns (res: Edit)
    ensures res == Screen.DeleteLinesAsWritten(Ring(lines, height, ybase), n, cols, rows, bottom, ey)
  {
    var l, k := lines, 0;
    while k < n
      invariant k <= n
      invariant Screen.DeleteLinesAsWritten(Ring(lines, height, ybase), k, cols, rows, bottom, ey) == Edit(l, true)
    {
      var t := CloseRowTable(l, height, ybase, cols, rows, bottom, ey);
      if !t.done {
        Screen.DeleteLinesAsWrittenStops(Ring(lines, height, ybase), k + 1, n, cols, rows, bottom, ey);
        return t;
      }
      l, k := t.lines, k + 1;
    }
    res := Edit(l, true);
  }

  /** `eraseInDisplay`: erase the cursor's row from the column on, then
      every screen row below it. */
  method EraseBelowTable(lines: seq<Entry>, height: int, ybase: int, cols: nat, rows: nat, ex: nat, ey: int)
    returns (res: Edit)
    ensures res == Screen.EraseBelow(Ring(lines, height, ybase), cols, rows, ex, ey)
  {
    var e := EraseRow(lines, height, ybase, cols, ex, ey);
    if e.None? {
      return Edit(lines, false);
    }
    var l := e.value;
    var j := ey + 1;
    while j < rows
      invariant Screen.EraseRowsFrom(Ring(l, height, ybase), j, cols, rows)
        == Screen.EraseBelow(Ring(lines, height, ybase), cols, rows, ex, ey)
      decreases rows - j
    {
      var f := EraseRow(l, height, ybase, cols, 0, j);
      if f.None? {
        return Edit(l, false);
      }
      l := f.value;
      j := j + 1;
    }
    res := Edit(l, true);
  }

  class Term {
    const cols: nat
    const rows: nat
    const totalHeight: int

    var lines: seq<Entry>
    var currentHeight: int
    var ybase: int
    var ydisp: int
    var x: int
    var y: int
    var scrollTop: int
    var scrollBottom: int
    var curAttr: Attr
    var cursorHidden: bool
    var outputQueue: seq<CodeUnit>
    var savedX: int
    var savedY: int
    var normal: Option<Effects.Snapshot>

    // the recogniser's fields
    var state: Parser.State
    var params: seq<int>
    var currentParam: int
    var prefix: seq<CodeUnit>
    var postfix: seq<CodeUnit>

    /** The ranges every method keeps (`Effects.Valid` of the fields). */
    predicate Valid()
      reads this`lines, this`currentHeight, this`ybase, this`ydisp, this`x, this`y, this`scrollTop,
        this`scrollBottom, this`savedX, this`savedY, this`normal
    {
      Effects.RangesOk(SnapshotOf(), savedX, savedY, normal, DimsOf())
    }

    /** The fields as one value, the one the `Effects` functions work on. */
    function FieldsOf(): Effects.Fields
      reads this
    {
      Effects.Fields(lines, currentHeight, ybase, ydisp, x, y, scrollTop, scrollBottom, curAttr, cursorHidden,
                     outputQueue, savedX, savedY, normal, ParserOf())
    }

    /** The fields fixed at construction. */
    function DimsOf(): Effects.Dims {
      Effects.Dims(cols, rows, totalHeight)
    }

    /** The ring buffer the `Screen` functions work on. */
    function RingOf(): Ring
      reads this`lines, this`currentHeight, this`ybase
    {
      Ring(lines, currentHeight, ybase)
    }

    /** The recogniser's fields the `Parser` functions work on. */
    function ParserOf(): Parser.Parser
      reads this`state, this`params, this`currentParam, this`prefix, this`postfix
    {
      Parser.Parser(state, params, currentParam, prefix, postfix)
    }

    /** The fields `setMode` keeps of the normal screen. */
    function SnapshotOf(): Effects.Snapshot
      reads this`lines, this`currentHeight, this`ybase, this`ydisp, this`x, this`y, this`scrollTop,
        this`scrollBottom
    {
      Effects.Snapshot(lines, currentHeight, ybase, ydisp, x, y, scrollTop, scrollBottom)
    }

    /** The fields as `reset()` leaves them: a fresh table of `rows` blank
        rows, the cursor and the viewport home, the whole screen as the
        scroll region, the normal state and nothing queued. */
    predicate IsReset()
      reads this
    {
      && SnapshotOf() == Effects.Snapshot(FreshLines(cols, rows), rows, 0, 0, 0, 0, 0, rows - 1)
      && state == Parser.Normal && outputQueue == []
    }

    /** `new Term(cols, rows)` followed by the line table `open` builds:
        `currentHeight` blank rows. */
    constructor (cols: int, rows: int)
      requires cols >= 1 && rows >= 1
      ensures Valid()
      ensures this.cols == cols && this.rows == rows
      ensures RingOf() == Ring(FreshLines(cols, rows), rows, 0)
      ensures ydisp == 0 && x == 0 && y == 0 && scrollTop == 0 && scrollBottom == rows - 1
      ensures ParserOf() == Parser.Initial
      ensures curAttr == DefAttr && !cursorHidden && outputQueue == [] && normal == None
    {
      var table := FreshTable(cols, rows);
      this.cols := cols;
      this.rows := rows;
      currentHeight := rows;
      totalHeight := 1000;
      ybase := 0;
      ydisp := 0;
      x := 0;
      y := 0;
      cursorHidden := false;
      state := Parser.Normal;
      outputQueue := [];
      scrollTop := 0;
      scrollBottom := rows - 1;
      curAttr := DefAttr;
      params := [];
      currentParam := 0;
      prefix := [];
      postfix := [];
      savedX := 0;
      savedY := 0;
      normal := None;
      lines := table;
    }

    /** `eraseLine(x, y)`: blank screen row `y` from column `x` on. */
    method EraseLine(ex: int, ey: int) returns (ok: bool)
      requires Valid() && ex >= 0
      modifies this`lines
      ensures var res := Screen.EraseLine(old(RingOf()), cols, ex, ey);
        ok == res.Some? && lines == if ok then res.value else old(lines)
    {
      var res := EraseRow(lines, currentHeight, ybase, cols, ex, ey);
      ok := res.Some?;
      if ok {
        lines := res.value;
      }
    }

    /** `scroll()`: the ring grows by a row until it is full and `ybase`
        moves one row down it; a blank row enters at the bottom of the
        scroll region, and when the region does not start at the top its
        top row leaves the table.  The table work runs on local copies in
        `ScrollTable`. */
    method Scroll()
      requires Valid()
      modifies this`lines, this`currentHeight, this`ybase, this`ydisp
      ensures Valid()
      ensures FieldsOf() == Effects.Scroll(old(FieldsOf()), DimsOf())
    {
      var l, h, base := ScrollTable(lines, currentHeight, ybase, cols, rows, totalHeight, scrollTop, scrollBottom);
      lines, currentHeight, ybase, ydisp := l, h, base, base;
    }

    /** The line feed of LF, VT, FF, of a character printed past the right
        margin, and of `index`: one row down, or a scroll when that would
        leave the scroll region. */
    method LineFeed()
      requires Valid()
      modifies this`y, this`lines, this`currentHeight, this`ybase, this`ydisp
      ensures Valid()
      ensures FieldsOf() == Effects.LineFeed(old(FieldsOf()), DimsOf())
    {
      y := y + 1;
      if y >= scrollBottom + 1 {
        y := y - 1;
        Scroll();
      }
    }

    /** `scrollDisp(disp)`: move the viewport `disp` rows down the ring
        (stopping at the live screen) or `-disp` rows up it (stopping at the
        row just below the live screen, the oldest row of a full ring). */
    method ScrollDisp(disp: int)
      requires Valid()
      modifies this`ydisp
      ensures Valid()
      ensures disp >= 0 ==> ydisp == Forward(old(ydisp), ybase, currentHeight, disp)
      ensures disp < 0 ==> ydisp == Backward(old(ydisp), WrapOnce(ybase, rows, currentHeight), currentHeight, -disp)
    {
      if disp >= 0 {
        var i := 0;
        while i < disp
          invariant 0 <= i <= disp && -1 <= ydisp < currentHeight
          invariant Forward(ydisp, ybase, currentHeight, disp - i) == Forward(old(ydisp), ybase, currentHeight, disp)
        {
          if ydisp == ybase {
            break;
          }
          ydisp := ydisp + 1;
          if ydisp == currentHeight {
            ydisp := 0;
          }
          i := i + 1;
        }
      } else {
        var n := -disp;
        var row := ybase + rows;
        if row >= currentHeight {
          row := row - currentHeight;
        }
        var i := 0;
        while i < n
          invariant 0 <= i <= n && -1 <= ydisp < currentHeight
          invariant Backward(ydisp, row, currentHeight, n - i) == Backward(old(ydisp), row, currentHeight, n)
        {
          if ydisp == row {
            break;
          }
          ydisp := ydisp - 1;
          if ydisp < 0 {
            ydisp := currentHeight - 1;
          }
          i := i + 1;
        }
      }
    }

    /** `index()` (ESC D): a line feed, then back to the normal state. */
    method Index()
      requires Valid()
      modifies this`y, this`lines, this`currentHeight, this`ybase, this`ydisp, this`state
      ensures Valid()
      ensures FieldsOf() == Effects.LineFeed(old(FieldsOf()), DimsOf()).(p := old(ParserOf()).(state := Parser.Normal))
    {
      LineFeed();
      state := Parser.Normal;
    }

    /** `reverseIndex()` (ESC M): one row up, or at the top of the scroll
        region an empty row inserted at the cursor's row, blanked, and the
        entry below the region taken out.  A throw of the erase leaves the
        table with the inserted entry and the state still escaped. */
    method ReverseIndex() returns (ok: bool)
      requires Valid()
      modifies this`y, this`lines, this`state
      ensures Valid()
      ensures (FieldsOf(), ok) == Effects.ReverseIndex(old(FieldsOf()), DimsOf())
    {
      if y - 1 >= scrollTop {
        y, state := y - 1, Parser.Normal;
        ok := true;
      } else {
        ok := OpenAtCursor();
      }
    }

    /** ESC M at the top of the scroll region (`y--` and `y++` cancel). */
    method OpenAtCursor() returns (ok: bool)
      requires Valid()
      modifies this`lines, this`state
      ensures Valid() && (FieldsOf(), ok) == Effects.OpenAtCursor(old(FieldsOf()), DimsOf())
    {
      var res := OpenRowTable(lines, currentHeight, ybase, cols, rows, scrollBottom, x, y);
      lines := res.lines;
      ok := res.done;
      if ok {
        state := Parser.Normal;
      }
    }

    /** `reset()` (ESC c, and entering the alternate screen): a fresh table
        of `rows` blank rows, the cursor home, the whole screen as the
        scroll region, and the normal state.  The attribute, the cursor's
        visibility, the saved cursor, the snapshot and the parameters are
        left as they were. */
    method Reset()
      requires Valid()
      modifies this`lines, this`currentHeight, this`ybase, this`ydisp, this`x, this`y,
        this`state, this`outputQueue, this`scrollTop, this`scrollBottom
      ensures Valid() && IsReset()
      ensures FieldsOf() == Effects.Reset(old(FieldsOf()), DimsOf())
    {
      var table := FreshTable(cols, rows);
      SetScreen(Effects.Snapshot(table, rows, 0, 0, 0, 0, 0, rows - 1));
      state, outputQueue := Parser.Normal, [];
    }

    /** Assign the eight fields a snapshot of the screen holds: what
        `resetMode` does with `this.normal`, and what `reset()` does with
        the fresh values. */
    method SetScreen(n: Effects.Snapshot)
      requires Valid() && Effects.SnapshotOk(n, rows, totalHeight)
      modifies this`lines, this`currentHeight, this`ybase, this`ydisp, this`x, this`y,
        this`scrollTop, this`scrollBottom
      ensures Valid() && SnapshotOf() == n
    {
      SetRing(n);
      SetCursor(n);
    }

    /** The first half of `SetScreen`: the table and the viewport. */
    method SetRing(n: Effects.Snapshot)
      requires Valid() && Effects.SnapshotOk(n, rows, totalHeight)
      modifies this`lines, this`currentHeight, this`ybase, this`ydisp
      ensures Valid()
      ensures lines == n.lines && currentHeight == n.currentHeight && ybase == n.ybase && ydisp == n.ydisp
    {
      lines, currentHeight, ybase, ydisp := n.lines, n.currentHeight, n.ybase, n.ydisp;
    }

    /** The second half of `SetScreen`: the cursor and the scroll region. */
    method SetCursor(n: Effects.Snapshot)
      requires Valid() && Effects.SnapshotOk(n, rows, totalHeight)
      modifies this`x, this`y, this`scrollTop, this`scrollBottom
      ensures Valid()
      ensures x == n.x && y == n.y && scrollTop == n.scrollTop && scrollBottom == n.scrollBottom
    {
      x, y, scrollTop, scrollBottom := n.x, n.y, n.scrollTop, n.scrollBottom;
    }

    // ---- cursor movement: each handler reads `this.params[0]` ----

    /** CUU: up `params[0]` rows (at least one), stopping at row 0. */
    method CursorUp()
      requires Valid() && |params| >= 1
      modifies this`y
      ensures Valid() && y == Back(old(y), params[0])
    {
      y := Back(y, params[0]);
    }

    /** CUD: down `params[0]` rows (at least one), stopping at the last row. */
    method CursorDown()
      requires Valid() && |params| >= 1
      modifies this`y
      ensures Valid() && y == Down(old(y), params[0], rows)
    {
      y := Down(y, params[0], rows);
    }

    /** CUF: right `params[0]` columns (at least one), stopping at the last
        column. */
    method CursorForward()
      requires Valid() && |params| >= 1
      modifies this`x
      ensures Valid() && x == Right(old(x), params[0], cols)
    {
      x := Right(x, params[0], cols);
    }

    /** CUB: left `params[0]` columns (at least one), stopping at column 0. */
    method CursorBackward()
      requires Valid() && |params| >= 1
      modifies this`x
      ensures Valid() && x == Back(old(x), params[0])
    {
      x := Back(x, params[0]);
    }

    /** CUP: row `params[0]` and column `params[1]` (1-based, clamped to
        the screen; a missing column is the first). */
    method CursorPos()
      requires Valid() && |params| >= 1
      modifies this`x, this`y
      ensures Valid() && y == Coordinate(params[0], rows) && x == CupColumn(params, cols)
    {
      x := CupColumn(params, cols);
      y := Coordinate(params[0], rows);
    }

    /** CNL: CUD, then column 0. */
    method CursorNextLine()
      requires Valid() && |params| >= 1
      modifies this`x, this`y
      ensures Valid() && y == Down(old(y), params[0], rows) && x == 0
    {
      y := Down(y, params[0], rows);
      x := 0;
    }

    /** CPL: CUU, then column 0. */
    method CursorPrecedingLine()
      requires Valid() && |params| >= 1
      modifies this`x, this`y
      ensures Valid() && y == Back(old(y), params[0]) && x == 0
    {
      y := Back(y, params[0]);
      x := 0;
    }

    /** CHA: the column becomes `params[0]` raised to 1, unclamped. */
    method CursorCharAbsolute()
      requires Valid() && |params| >= 1
      modifies this`x
      ensures Valid() && x == CharAbsolute(params[0])
    {
      x := CharAbsolute(params[0]);
    }

    /** HPA: column `params[0]` (1-based), clamped to the last column. */
    method CharPosAbsolute()
      requires Valid() && |params| >= 1
      modifies this`x
      ensures Valid() && x == Absolute(params[0], cols)
    {
      x := Absolute(params[0], cols);
    }

    /** HPR: as CUF. */
    method HPositionRelative()
      requires Valid() && |params| >= 1
      modifies this`x
      ensures Valid() && x == Right(old(x), params[0], cols)
    {
      x := Right(x, params[0], cols);
    }

    /** VPA: row `params[0]` (1-based), clamped to the last row. */
    method LinePosAbsolute()
      requires Valid() && |params| >= 1
      modifies this`y
      ensures Valid() && y == Absolute(params[0], rows)
    {
      y := Absolute(params[0], rows);
    }

    /** VPR: as CUD. */
    method VPositionRelative()
      requires Valid() && |params| >= 1
      modifies this`y
      ensures Valid() && y == Down(old(y), params[0], rows)
    {
      y := Down(y, params[0], rows);
    }

    /** HVP: the parameters below 1 are raised to 1 in place, then the row
        and column are taken as HPA and VPA take them.  The column of a
        sequence with one parameter is the first (see `Motion.HvpColumn`). */
    method HVPosition()
      requires Valid() && |params| >= 1
      modifies this`x, this`y, this`params
      ensures Valid()
      ensures params == Parser.HvpParams(old(params))
      ensures y == Absolute(old(params)[0], rows) && x == HvpColumn(old(params), cols)
    {
      params := Parser.HvpParams(params);
      y := Absolute(params[0], rows);
      x := HvpColumn(params, cols);
    }

    /** ESC 7 and CSI s: remember the cursor. */
    method SaveCursor()
      requires Valid()
      modifies this`savedX, this`savedY
      ensures Valid() && savedX == x && savedY == y
    {
      savedX := x;
      savedY := y;
    }

    /** ESC 8 and CSI u: go back to the remembered cursor (`savedX || 0`
        is `savedX` for the numbers kept here). */
    method RestoreCursor()
      requires Valid()
      modifies this`x, this`y
      ensures Valid() && x == savedX && y == savedY
    {
      x := savedX;
      y := savedY;
    }

    /** DECSTBM: the region from `params[0]` to `params[1]` (1-based, 0 or
        missing meaning the screen's edge); ignored after `?`. */
    method SetScrollRegion()
      requires Valid() && Parser.Wellformed(ParserOf()) && |params| >= 1
      modifies this`scrollTop, this`scrollBottom
      ensures prefix == [63] ==> scrollTop == old(scrollTop) && scrollBottom == old(scrollBottom)
      ensures prefix != [63] ==> scrollTop == RegionTop(params) && scrollBottom == RegionBottom(params, rows)
      ensures Valid()
    {
      if prefix == [63] {
        return;
      }
      scrollTop := RegionTop(params);
      scrollBottom := RegionBottom(params, rows);
    }
    // ---- erasing and editing ----

    /** ED: erase from the cursor to the end of the screen. */
    method EraseInDisplay() returns (ok: bool)
      requires Valid()
      modifies this`lines
      ensures var res := Screen.EraseBelow(old(RingOf()), cols, rows, x, y);
        ok == res.done && lines == res.lines
    {
      var res := EraseBelowTable(lines, currentHeight, ybase, cols, rows, x, y);
      lines := res.lines;
      ok := res.done;
    }

    /** EL: erase from the cursor to the end of its row. */
    method EraseInLine() returns (ok: bool)
      requires Valid()
      modifies this`lines
      ensures var res := Screen.EraseLine(old(RingOf()), cols, x, y);
        ok == res.Some? && lines == if ok then res.value else old(lines)
    {
      ok := EraseLine(x, y);
    }

    /** ICH: `params[0]` (at least one) blanks inserted at the cursor. */
    method InsertChars() returns (ok: bool)
      requires Valid() && |params| >= 1
      modifies this`lines
      ensures var res := Screen.InsertChars(old(lines), y + ybase, x, AtLeast1(params[0]), cols);
        ok == res.Some? && lines == if ok then res.value else old(lines)
    {
      var res := InsertCharsTable(lines, y + ybase, x, AtLeast1(params[0]), cols);
      ok := res.Some?;
      if ok {
        lines := res.value;
      }
    }

    /** DCH: `params[0]` (at least one) cells deleted at the cursor, and
        for each a blank cell value pushed onto the line table itself, not
        onto the row. */
    method DeleteChars() returns (ok: bool)
      requires Valid() && |params| >= 1
      modifies this`lines
      ensures var res := Screen.DeleteCharsAsWritten(old(lines), y + ybase, x, AtLeast1(params[0]));
        ok == res.Some? && lines == if ok then res.value else old(lines)
    {
      var res := DeleteCharsTable(lines, y + ybase, x, AtLeast1(params[0]));
      ok := res.Some?;
      if ok {
        lines := res.value;
      }
    }

    /** ECH: `params[0]` (at least one) cells blanked from the cursor on. */
    method EraseChars() returns (ok: bool)
      requires Valid() && |params| >= 1
      modifies this`lines
      ensures var res := Screen.EraseChars(old(lines), y + ybase, x, AtLeast1(params[0]), cols);
        ok == res.Some? && lines == if ok then res.value else old(lines)
    {
      var res := EraseCharsTable(lines, y + ybase, x, AtLeast1(params[0]), cols);
      ok := res.Some?;
      if ok {
        lines := res.value;
      }
    }

    /** IL: `params[0]` (at least one) empty rows inserted at the cursor's
        row, the region's bottom rows falling out. */
    method InsertLines() returns (ok: bool)
      requires Valid() && |params| >= 1
      modifies this`lines
      ensures var res := Screen.InsertLines(old(RingOf()), AtLeast1(params[0]), cols, rows, scrollBottom, y);
        ok == res.done && lines == res.lines
    {
      var res := InsertLinesTable(lines, currentHeight, ybase, AtLeast1(params[0]), cols, rows, scrollBottom, y);
      lines := res.lines;
      ok := res.done;
    }

    /** DL: `params[0]` (at least one) turns of an empty row entering below
        the region, the region's old bottom row blanked, and the cursor's
        row taken out; a throw of the erase ends the loop. */
    method DeleteLines() returns (ok: bool)
      requires Valid() && |params| >= 1
      modifies this`lines
      ensures var res := Screen.DeleteLinesAsWritten(old(RingOf()), AtLeast1(params[0]), cols, rows, scrollBottom, y);
        ok == res.done && lines == res.lines
    {
      var res := DeleteLinesTable(lines, currentHeight, ybase, AtLeast1(params[0]), cols, rows, scrollBottom, y);
      lines := res.lines;
      ok := res.done;
    }

    /** CBT: up to `(params[0] || 1) * 8` columns left, each pulling the
        rest of the row one cell left. */
    method CursorBackwardTab() returns (ok: bool)
      requires Valid() && |params| >= 1 && params[0] >= 0
      modifies this`lines, this`x
      ensures Valid()
      ensures var (res, nx) := Screen.BackTab(old(lines), y + ybase, old(x), TabCount(params[0]));
        ok == res.Some? && x == nx && lines == if ok then res.value else old(lines)
    {
      var res, nx := BackTabTable(lines, y + ybase, x, TabCount(params[0]));
      x := nx;
      ok := res.Some?;
      if ok {
        lines := res.value;
      }
    }

    /** CHT: the handler reads a variable `param` that is not declared, so
        it always throws a `ReferenceError` and changes nothing. */
    method CursorForwardTab() returns (ok: bool)
      ensures !ok
    {
      ok := false;
    }

    // ---- attributes, reports and the viewport ----

    /** SGR: an empty list means the default attribute; otherwise each code
        is applied to the current attribute in turn. */
    method CharAttributes()
      requires Valid()
      modifies this`curAttr
      ensures Valid() && curAttr == Sgr.CharAttributes(old(curAttr), params)
    {
      if |params| == 0 {
        curAttr := DefAttr;
        return;
      }
      var i := 0;
      while i < |params|
        invariant 0 <= i <= |params|
        invariant Sgr.ApplyAll(curAttr, params[i..]) == Sgr.ApplyAll(old(curAttr), params)
      {
        curAttr := Sgr.ApplyCode(curAttr, params[i]);
        i := i + 1;
      }
    }

    /** DSR: code 5 queues the status report `ESC [ 0 n`, code 6 the
        1-based cursor position `ESC [ y ; x R`; other codes queue nothing. */
    method DeviceStatus()
      requires Valid() && |params| >= 1
      modifies this`outputQueue
      ensures Valid()
      ensures outputQueue == old(outputQueue) + (
        if params[0] == 5 then Parser.StatusReport
        else if params[0] == 6 then Parser.PositionReport(y + 1, x + 1)
        else [])
    {
      if params[0] == 5 {
        outputQueue := outputQueue + Parser.StatusReport;
      } else if params[0] == 6 {
        outputQueue := outputQueue + Parser.PositionReport(y + 1, x + 1);
      }
    }

    /** SU: `scrollDisp(-params[0] || -1)`, the viewport up into the
        scrollback. */
    method ScrollUp()
      requires Valid() && |params| >= 1 && params[0] >= 0
      modifies this`ydisp
      ensures Valid()
      ensures ydisp == Backward(old(ydisp), WrapOnce(ybase, rows, currentHeight), currentHeight, -ScrollUpBy(params[0]))
    {
      ScrollDisp(ScrollUpBy(params[0]));
    }

    /** SD: `scrollDisp(params[0] || 1)`, the viewport down towards the live
        screen. */
    method ScrollDown()
      requires Valid() && |params| >= 1 && params[0] >= 0
      modifies this`ydisp
      ensures Valid()
      ensures ydisp == Forward(old(ydisp), ybase, currentHeight, ScrollDownBy(params[0]))
    {
      ScrollDisp(ScrollDownBy(params[0]));
    }
    // ---- modes ----

    /** `this.setMode(params.shift())`: the first code is taken off the
        list and handled.  After `?`: 25 shows the cursor, and the
        alternate-screen codes, when the normal screen is not saved yet,
        save it and reset.  Without `?` nothing happens. */
    method SetModeFirst()
      requires Valid() && |params| > 0
      modifies this`params, this`cursorHidden, this`normal, this`lines, this`currentHeight, this`ybase,
        this`ydisp, this`x, this`y, this`state, this`outputQueue, this`scrollTop, this`scrollBottom
      ensures Valid() && params == old(params)[1..]
      ensures var p := old(params)[0];
        cursorHidden == if prefix == [63] && p == 25 then false else old(cursorHidden)
      ensures prefix == [63] && Effects.IsAltScreen(old(params)[0]) && old(normal).None? ==>
        normal == Some(old(SnapshotOf())) && IsReset()
      ensures !(prefix == [63] && Effects.IsAltScreen(old(params)[0]) && old(normal).None?) ==>
        normal == old(normal) && SnapshotOf() == old(SnapshotOf())
        && state == old(state) && outputQueue == old(outputQueue)
    {
      var p := params[0];
      params := params[1..];
      if prefix != [63] {
        return;
      }
      if p == 25 {
        cursorHidden := false;
      } else if Effects.IsAltScreen(p) && normal.None? {
        normal := Some(SnapshotOf());
        Reset();
      }
    }

    /** SM: `setMode(params)` shifts the codes off `this.params` one by one
        and handles each.  The normal screen is saved (and the screen
        reset) at the first alternate-screen code when it was not saved
        already; the cursor is shown when 25 is among the codes. */
    method SetMode()
      requires Valid()
      modifies this`params, this`cursorHidden, this`normal, this`lines, this`currentHeight, this`ybase,
        this`ydisp, this`x, this`y, this`state, this`outputQueue, this`scrollTop, this`scrollBottom
      ensures Valid() && params == []
      ensures cursorHidden == if prefix == [63] && 25 in old(params) then false else old(cursorHidden)
      ensures prefix == [63] && old(normal).None? && Effects.AnyAltScreen(old(params)) ==>
        normal == Some(old(SnapshotOf())) && IsReset()
      ensures !(prefix == [63] && old(normal).None? && Effects.AnyAltScreen(old(params))) ==>
        normal == old(normal) && SnapshotOf() == old(SnapshotOf())
        && state == old(state) && outputQueue == old(outputQueue)
    {
      ghost var ps := params;
      ghost var i := 0;
      ghost var entered := false;
      while |params| > 0
        invariant Valid() && 0 <= i <= |ps| && params == ps[i..]
        invariant cursorHidden == if prefix == [63] && 25 in ps[..i] then false else old(cursorHidden)
        invariant entered == (prefix == [63] && old(normal).None? && Effects.AnyAltScreen(ps[..i]))
        invariant entered ==> normal == Some(old(SnapshotOf())) && IsReset()
        invariant !entered ==> (normal == old(normal) && SnapshotOf() == old(SnapshotOf())
          && state == old(state) && outputQueue == old(outputQueue))
        decreases |params|
      {
        ghost var p := params[0];
        SetModeFirst();
        assert ps[..i + 1] == ps[..i] + [p];
        Effects.AnyAltScreenSnoc(ps[..i], p);
        entered := entered || (prefix == [63] && old(normal).None? && Effects.IsAltScreen(p));
        i := i + 1;
      }
      assert ps[..i] == ps;
    }

    /** `this.resetMode(params.shift())`: the first code is taken off the
        list and handled.  After `?`: 25 hides the cursor, and the
        alternate-screen codes, when the normal screen is saved, bring it
        back and forget the snapshot. */
    method ResetModeFirst()
      requires Valid() && |params| > 0
      modifies this`params, this`cursorHidden, this`normal, this`lines, this`currentHeight, this`ybase,
        this`ydisp, this`x, this`y, this`scrollTop, this`scrollBottom
      ensures Valid() && params == old(params)[1..]
      ensures var p := old(params)[0];
        cursorHidden == if prefix == [63] && p == 25 then true else old(cursorHidden)
      ensures prefix == [63] && Effects.IsAltScreen(old(params)[0]) && old(normal).Some? ==>
        normal == None && SnapshotOf() == old(normal).value
      ensures !(prefix == [63] && Effects.IsAltScreen(old(params)[0]) && old(normal).Some?) ==>
        normal == old(normal) && SnapshotOf() == old(SnapshotOf())
    {
      var p := params[0];
      params := params[1..];
      if prefix != [63] {
        return;
      }
      if p == 25 {
        cursorHidden := true;
      } else if Effects.IsAltScreen(p) && normal.Some? {
        SetScreen(normal.value);
        normal := None;
      }
    }

    /** RM: `resetMode(params)` shifts the codes off `this.params` one by
        one.  The normal screen comes back at the first alternate-screen
        code when it was saved; the cursor is hidden when 25 is among the
        codes. */
    method ResetMode()
      requires Valid()
      modifies this`params, this`cursorHidden, this`normal, this`lines, this`currentHeight, this`ybase,
        this`ydisp, this`x, this`y, this`scrollTop, this`scrollBottom
      ensures Valid() && params == []
      ensures cursorHidden == if prefix == [63] && 25 in old(params) then true else old(cursorHidden)
      ensures prefix == [63] && old(normal).Some? && Effects.AnyAltScreen(old(params)) ==>
        normal == None && SnapshotOf() == old(normal).value
      ensures !(prefix == [63] && old(normal).Some? && Effects.AnyAltScreen(old(params))) ==>
        normal == old(normal) && SnapshotOf() == old(SnapshotOf())
    {
      ghost var ps := params;
      ghost var i := 0;
      ghost var left := false;
      while |params| > 0
        invariant Valid() && 0 <= i <= |ps| && params == ps[i..]
        invariant cursorHidden == if prefix == [63] && 25 in ps[..i] then true else old(cursorHidden)
        invariant left == (prefix == [63] && old(normal).Some? && Effects.AnyAltScreen(ps[..i]))
        invariant left ==> normal == None && SnapshotOf() == old(normal).value
        invariant !left ==> normal == old(normal) && SnapshotOf() == old(SnapshotOf())
        decreases |params|
      {
        ghost var p := params[0];
        ResetModeFirst();
        assert ps[..i + 1] == ps[..i] + [p];
        Effects.AnyAltScreenSnoc(ps[..i], p);
        left := left || (prefix == [63] && old(normal).Some? && Effects.IsAltScreen(p));
        i := i + 1;
      }
      assert ps[..i] == ps;
    }

    // ---- the loop of `write` ----

    /** A printable character (`ch >= 32` in the normal state): past the
        right margin the cursor first goes to column 0 of the next row (a
        line feed), then the packed cell is stored at the cursor and the
        cursor moves right.  The store throws a `TypeError` when the row's
        entry is not a row; the wrap has happened by then. */
    method Print(ch: CodeUnit) returns (ok: bool)
      requires Valid()
      modifies this`x, this`y, this`lines, this`currentHeight, this`ybase, this`ydisp
      ensures Valid()
      ensures (FieldsOf(), ok) == Effects.Print(old(FieldsOf()), DimsOf(), ch)
    {
      ghost var t0 := FieldsOf();
      if x >= cols {
        x := 0;
        LineFeed();
        assert FieldsOf() == Effects.LineFeed(t0, DimsOf()).(x := 0);
      }
      ghost var t1 := FieldsOf();
      var row := WrapOnce(ybase, y, currentHeight);
      var res := PutCell(lines, row, x, Pack(ch, curAttr));
      if res.None? {
        return false;
      }
      lines := res.value;
      x := x + 1;
      ok := true;
      assert FieldsOf() == t1.(lines := res.value, x := t1.x + 1);
    }

    /** Store the recogniser's fields. */
    method SetParser(p: Parser.Parser)
      requires Valid()
      modifies this`state, this`params, this`currentParam, this`prefix, this`postfix
      ensures Valid() && ParserOf() == p
      ensures FieldsOf() == old(FieldsOf()).(p := p)
    {
      state, params, currentParam, prefix, postfix := p.state, p.params, p.currentParam, p.prefix, p.postfix;
    }

    /** The handler that runs for one code unit, `a` as `Parser.Scan`
        chose it.  Returning `false` stands for the exception of a handler
        that throws; the recogniser's fields are then as the handler found
        them, otherwise as `Parser.After` says. */
    method Perform(a: Parser.Action) returns (ok: bool)
      requires Valid() && Parser.Wellformed(ParserOf())
      requires a.Control? ==> state == Parser.Normal && |params| >= 1
      modifies this
      ensures Valid() && (FieldsOf(), ok) == Effects.Perform(old(FieldsOf()), DimsOf(), a)
    {
      if a.Control? {
        ok := PerformControl(a.final);
      } else if a.Print? {
        ok := Print(a.ch);
      } else if a.ReverseIndex? {
        ok := ReverseIndex();
      } else {
        PerformSimple(a);
        ok := true;
      }
    }

    /** The handlers that cannot throw, outside control sequences. */
    method PerformSimple(a: Parser.Action)
      requires Valid() && !a.Control? && !a.Print? && !a.ReverseIndex?
      modifies this
      ensures Valid() && FieldsOf() == Effects.PerformSimple(old(FieldsOf()), DimsOf(), a)
    {
      if a.FullReset? {
        Reset();
      } else if a.LineFeed? || a.NextLine? || a.Index? {
        PerformFeed(a);
      } else {
        PerformInline(a);
      }
    }

    /** A control sequence: its handler, then the prefix and the postfix
        cleared, unless the handler threw. */
    method PerformControl(f: CodeUnit) returns (ok: bool)
      requires Valid() && Parser.Wellformed(ParserOf()) && state == Parser.Normal && |params| >= 1
      modifies this
      ensures Valid() && (FieldsOf(), ok) == Effects.PerformControl(old(FieldsOf()), DimsOf(), f)
    {
      ok := Dispatch(f);
      if ok {
        ghost var t1 := FieldsOf();
        prefix, postfix := [], [];
        assert FieldsOf() == t1.(p := t1.p.(prefix := [], postfix := []));
      }
    }

    /** The control characters handled inside the loop of `write`
        itself, and ESC 7 and ESC 8. */
    method PerformInline(a: Parser.Action)
      requires Valid()
      requires a.NoAction? || a.Bell? || a.CarriageReturn? || a.Backspace? || a.Tab?
        || a.SaveCursor? || a.RestoreCursor?
      modifies this`x, this`y, this`savedX, this`savedY
      ensures Valid() && FieldsOf() == Effects.PerformInline(old(FieldsOf()), DimsOf(), a)
    {
      if a.CarriageReturn? {
        x := 0;
      } else if a.Backspace? {
        if x > 0 {
          x := x - 1;
        }
      } else if a.Tab? {
        x := TabStop(x, cols);
      } else if a.SaveCursor? {
        SaveCursor();
      } else if a.RestoreCursor? {
        RestoreCursor();
      }
    }

    /** LF, VT and FF, and ESC E and ESC D. */
    method PerformFeed(a: Parser.Action)
      requires Valid()
      requires a.LineFeed? || a.NextLine? || a.Index?
      modifies this`x, this`y, this`lines, this`currentHeight, this`ybase, this`ydisp, this`state
      ensures Valid() && FieldsOf() == Effects.PerformFeed(old(FieldsOf()), DimsOf(), a)
    {
      if a.LineFeed? {
        LineFeed();
      } else if a.NextLine? {
        x := 0;
        Index();
      } else {
        Index();
      }
    }

    /** The `switch` on the final byte of a control sequence.  The state
        is already normal.  Unknown finals, CSI c (whose handler returns at
        once) and CSI p (whose only case needs the prefix `!`, which the
        recogniser never stores) do nothing. */
    method Dispatch(f: CodeUnit) returns (ok: bool)
      requires Valid() && Parser.Wellformed(ParserOf()) && state == Parser.Normal && |params| >= 1
      modifies this
      ensures Valid() && (FieldsOf(), ok) == Effects.Dispatch(old(FieldsOf()), DimsOf(), f)
    {
      ok := true;
      if f in {65, 66, 67, 68, 72, 69, 70, 71, 96, 97, 100, 101, 102, 114, 115, 117} {
        DispatchMove(f);
      } else if f in {74, 75, 64} {
        ok := DispatchErase(f);
      } else if f in {76, 77} {
        ok := DispatchLines(f);
      } else if f in {80, 88} {
        ok := DispatchDelete(f);
      } else if f in {90, 73} {
        ok := DispatchTab(f);
      } else if f == 104 || f == 108 {
        DispatchMode(f);
      } else {
        DispatchOther(f);
      }
    }

    /** The handlers that only move the cursor, set the scroll region or
        save and restore the cursor. */
    method DispatchMove(f: CodeUnit)
      requires Valid() && Parser.Wellformed(ParserOf()) && |params| >= 1 && f != 104 && f != 108
      modifies this`x, this`y, this`params, this`scrollTop, this`scrollBottom, this`savedX, this`savedY
      ensures Valid() && FieldsOf() == Effects.DispatchMove(old(FieldsOf()), DimsOf(), f)
    {
      if f in {65, 66, 67, 68, 72} {
        DispatchCursor(f);
      } else if f in {69, 70, 71, 96, 97} {
        DispatchColumn(f);
      } else if f in {100, 101, 102} {
        DispatchRow(f);
      } else {
        DispatchRegion(f);
      }
    }

    /** CUU, CUD, CUF, CUB and CUP. */
    method DispatchCursor(f: CodeUnit)
      requires Valid() && |params| >= 1
      modifies this`x, this`y
      ensures Valid() && FieldsOf() == Effects.DispatchCursor(old(FieldsOf()), DimsOf(), f)
    {
      if f == 65 {
        CursorUp();
      } else if f == 66 {
        CursorDown();
      } else if f == 67 {
        CursorForward();
      } else if f == 68 {
        CursorBackward();
      } else if f == 72 {
        CursorPos();
      }
    }

    /** CNL, CPL, CHA, HPA and HPR. */
    method DispatchColumn(f: CodeUnit)
      requires Valid() && |params| >= 1
      modifies this`x, this`y
      ensures Valid() && FieldsOf() == Effects.DispatchColumn(old(FieldsOf()), DimsOf(), f)
    {
      if f == 69 {
        CursorNextLine();
      } else if f == 70 {
        CursorPrecedingLine();
      } else if f == 71 {
        CursorCharAbsolute();
      } else if f == 96 {
        CharPosAbsolute();
      } else if f == 97 {
        HPositionRelative();
      }
    }

    /** VPA, VPR and HVP. */
    method DispatchRow(f: CodeUnit)
      requires Valid() && |params| >= 1
      modifies this`x, this`y, this`params
      ensures Valid() && FieldsOf() == Effects.DispatchRow(old(FieldsOf()), DimsOf(), f)
    {
      if f == 100 {
        LinePosAbsolute();
      } else if f == 101 {
        VPositionRelative();
      } else if f == 102 {
        HVPosition();
      }
    }

    /** DECSTBM, and the ANSI.SYS save and restore. */
    method DispatchRegion(f: CodeUnit)
      requires Valid() && Parser.Wellformed(ParserOf()) && |params| >= 1
      modifies this`x, this`y, this`scrollTop, this`scrollBottom, this`savedX, this`savedY
      ensures Valid() && FieldsOf() == Effects.DispatchRegion(old(FieldsOf()), DimsOf(), f)
    {
      if f == 114 {
        SetScrollRegion();
      } else if f == 115 {
        SaveCursor();
      } else if f == 117 {
        RestoreCursor();
      }
    }

    /** ED, EL and ICH, each of which can throw. */
    method DispatchErase(f: CodeUnit) returns (ok: bool)
      requires Valid() && |params| >= 1
      modifies this`lines
      ensures Valid() && (FieldsOf(), ok) == Effects.DispatchErase(old(FieldsOf()), DimsOf(), f)
    {
      ok := true;
      if f == 74 {
        ok := EraseInDisplay();
      } else if f == 75 {
        ok := EraseInLine();
      } else if f == 64 {
        ok := InsertChars();
      }
    }

    /** IL and DL, each of which can throw. */
    method DispatchLines(f: CodeUnit) returns (ok: bool)
      requires Valid() && |params| >= 1
      modifies this`lines
      ensures Valid() && (FieldsOf(), ok) == Effects.DispatchLines(old(FieldsOf()), DimsOf(), f)
    {
      ok := true;
      if f == 76 {
        ok := InsertLines();
      } else if f == 77 {
        ok := DeleteLines();
      }
    }

    /** DCH and ECH, each of which can throw. */
    method DispatchDelete(f: CodeUnit) returns (ok: bool)
      requires Valid() && |params| >= 1
      modifies this`lines
      ensures Valid() && (FieldsOf(), ok) == Effects.DispatchDelete(old(FieldsOf()), DimsOf(), f)
    {
      ok := true;
      if f == 80 {
        ok := DeleteChars();
      } else if f == 88 {
        ok := EraseChars();
      }
    }

    /** CBT and CHT, each of which can throw; CHT always does. */
    method DispatchTab(f: CodeUnit) returns (ok: bool)
      requires Valid() && Parser.Wellformed(ParserOf()) && |params| >= 1
      modifies this`lines, this`x
      ensures Valid() && (FieldsOf(), ok) == Effects.DispatchTab(old(FieldsOf()), DimsOf(), f)
    {
      ok := true;
      if f == 90 {
        ok := CursorBackwardTab();
      } else if f == 73 {
        ok := CursorForwardTab();
      }
    }

    /** SM and RM, which shift the parameter list empty. */
    method DispatchMode(f: CodeUnit)
      requires Valid() && state == Parser.Normal && (f == 104 || f == 108)
      modifies this`params, this`cursorHidden, this`normal, this`lines, this`currentHeight, this`ybase,
        this`ydisp, this`x, this`y, this`state, this`outputQueue, this`scrollTop, this`scrollBottom
      ensures Valid() && FieldsOf() == Effects.DispatchMode(old(FieldsOf()), DimsOf(), f)
    {
      ghost var t0 := FieldsOf();
      if f == 104 {
        SetMode();
        Effects.SetModeOf(t0, DimsOf(), FieldsOf());
      } else {
        ResetMode();
        Effects.ResetModeOf(t0, DimsOf(), FieldsOf());
      }
    }

    /** SGR, DSR, SU and SD; the other finals do nothing.  CSI T scrolls
        only without the prefix `>` and with a single parameter; the other
        two cases call handlers with empty bodies. */
    method DispatchOther(f: CodeUnit)
      requires Valid() && Parser.Wellformed(ParserOf()) && |params| >= 1
      modifies this`curAttr, this`outputQueue, this`ydisp
      ensures Valid() && FieldsOf() == Effects.DispatchOther(old(FieldsOf()), DimsOf(), f)
    {
      if f == 109 {
        CharAttributes();
      } else if f == 110 {
        DeviceStatus();
      } else if f == 83 {
        ScrollUp();
      } else if f == 84 {
        if prefix != [62] && |params| <= 1 {
          ScrollDown();
        }
      }
    }

    /** The first step of `write(str)`: the viewport jumps to the live
        screen. */
    method SnapToLive()
      requires Valid()
      modifies this`ydisp
      ensures Valid() && ydisp == ybase
      ensures FieldsOf() == old(FieldsOf()).(ydisp := ybase)
    {
      ydisp := ybase;
    }

    /** One turn of the loop of `write` at the code unit at index `i`:
        scan it, store the recogniser's fields, run the handler, and say
        where the loop goes on (after the next code unit too when an OSC
        string ends with ESC). */
    method WriteStep(s: seq<CodeUnit>, i: nat) returns (ok: bool, next: nat)
      requires Valid() && Parser.Wellformed(ParserOf()) && i < |s|
      modifies this
      ensures Valid() && i < next <= |s|
      ensures ok ==> (Parser.Wellformed(ParserOf())
        && Effects.Run(old(FieldsOf()), DimsOf(), s, i) == Effects.Run(FieldsOf(), DimsOf(), s, next))
      ensures !ok ==> Effects.Run(old(FieldsOf()), DimsOf(), s, i) == (FieldsOf(), Effects.Threw(i))
    {
      var st := Parser.Scan(ParserOf(), s[i]);
      Parser.ScanWellformed(ParserOf(), s[i]);
      SetParser(st.parser);
      ok := Perform(st.action);
      next := if st.skip && i + 1 < |s| then i + 2 else i + 1;
      if ok {
        Parser.AfterWellformed(st.parser, st.action);
      }
    }

    /** `write(str)`: the viewport jumps to the live screen, then every code
        unit is scanned and its handler run.  The fields end as
        `Effects.Write` says; when every handler returns, the recogniser
        ends as `Parser.Run` says; otherwise the exception leaves `write` at
        the code unit whose handler threw. */
    method Write(s: seq<CodeUnit>) returns (out: Effects.Outcome)
      requires Valid() && Parser.Wellformed(ParserOf())
      modifies this
      ensures Valid() && Parser.Wellformed(ParserOf())
      ensures (FieldsOf(), out) == Effects.Write(old(FieldsOf()), DimsOf(), s)
      ensures out.Done? ==> ParserOf() == Parser.Run(old(ParserOf()), s)
      ensures out.Threw? ==> out.at < |s|
    {
      ghost var t0 := FieldsOf();
      Effects.RunParser(t0.(ydisp := t0.ybase), DimsOf(), s, 0);
      SnapToLive();
      var i := 0;
      while i < |s|
        invariant Valid() && Parser.Wellformed(ParserOf()) && 0 <= i <= |s|
        invariant Effects.Run(FieldsOf(), DimsOf(), s, i) == Effects.Write(t0, DimsOf(), s)
        decreases |s| - i
      {
        var ok, next := WriteStep(s, i);
        if !ok {
          return Effects.Threw(i);
        }
        i := next;
      }
      out := Effects.Done;
    }
  }
}
