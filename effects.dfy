/** The fields of a terminal object as one value, and what each handler,
    each turn of the loop of `write`, and a whole call of `write` make of
    them.  `Terminal.Term` changes its fields step by step; each of its
    handlers is proved to leave them as the function of the same name here
    says, so these functions are what the steps add up to. */
module Effects {
  import opened Cells
  import opened Rows
  import opened Viewport
  import opened Screen
  import opened Motion
  import Parser
  import Sgr

  function Max(a: int, b: int): int { if a >= b then a else b }

  /** What `setMode` keeps of the normal screen while the alternate one is
      in use (`this.normal`). */
  datatype Snapshot = Snapshot(lines: seq<Entry>, currentHeight: int, ybase: int, ydisp: int,
                               x: int, y: int, scrollTop: int, scrollBottom: int)

  /** How a call of `write` ends: normally, or with the exception thrown
      while handling the code unit at index `at`. */
  datatype Outcome = Done | Threw(at: nat)

  /** The fields fixed at construction: the screen's size and the most rows
      the ring keeps (`totalHeight`). */
  datatype Dims = Dims(cols: nat, rows: nat, total: int)

  /** The fields a terminal object changes, the recogniser's as `p`. */
  datatype Fields = Fields(lines: seq<Entry>, currentHeight: int, ybase: int, ydisp: int, x: int, y: int,
                           scrollTop: int, scrollBottom: int, curAttr: Attr, cursorHidden: bool,
                           outputQueue: seq<CodeUnit>, savedX: int, savedY: int, normal: Option<Snapshot>,
                           p: Parser.Parser)

  /** The ranges a snapshot of the normal screen keeps, on a screen of
      `rows` rows whose ring holds at most `total` rows. */
  predicate SnapshotOk(s: Snapshot, rows: int, total: int) {
    && rows <= s.currentHeight <= Max(rows, total)
    && -1 <= s.ybase < s.currentHeight && -1 <= s.ydisp < s.currentHeight
    && 0 <= s.x && 0 <= s.y && 0 <= s.scrollTop && 0 <= s.scrollBottom
  }

  /** The eight fields `setMode` keeps. */
  function SnapshotOf(t: Fields): Snapshot {
    Snapshot(t.lines, t.currentHeight, t.ybase, t.ydisp, t.x, t.y, t.scrollTop, t.scrollBottom)
  }

  /** The eight fields assigned from a snapshot. */
  function WithSnapshot(t: Fields, n: Snapshot): (r: Fields)
    ensures SnapshotOf(r) == n
  {
    t.(lines := n.lines, currentHeight := n.currentHeight, ybase := n.ybase, ydisp := n.ydisp,
       x := n.x, y := n.y, scrollTop := n.scrollTop, scrollBottom := n.scrollBottom)
  }

  /** The ring buffer the `Screen` functions work on. */
  function RingOf(t: Fields): Ring { Ring(t.lines, t.currentHeight, t.ybase) }

  /** The ranges every handler keeps.  `ybase` can be -1: a scroll with a
      region that does not start at the top decrements it after wrapping
      it to 0.  Nothing here constrains the line table, which the source
      lets fill with numbers and holes. */
  predicate Valid(t: Fields, d: Dims) {
    RangesOk(SnapshotOf(t), t.savedX, t.savedY, t.normal, d)
  }

  /** `Valid` on the fields it constrains. */
  predicate RangesOk(s: Snapshot, savedX: int, savedY: int, normal: Option<Snapshot>, d: Dims) {
    && 1 <= d.cols && 1 <= d.rows && d.total == 1000
    && SnapshotOk(s, d.rows, d.total)
    && 0 <= savedX && 0 <= savedY
    && (normal.Some? ==> SnapshotOk(normal.value, d.rows, d.total))
  }

  /** The private modes 47, 1047 and 1049 switch between the normal and the
      alternate screen. */
  predicate IsAltScreen(p: int) { p == 47 || p == 1047 || p == 1049 }

  /** Some code of `ps` switches screens. */
  predicate AnyAltScreen(ps: seq<int>) { exists k :: 0 <= k < |ps| && IsAltScreen(ps[k]) }

  lemma AnyAltScreenSnoc(ps: seq<int>, p: int)
    ensures AnyAltScreen(ps + [p]) == (AnyAltScreen(ps) || IsAltScreen(p))
  {
    if IsAltScreen(p) {
      assert (ps + [p])[|ps|] == p;
    }
    if AnyAltScreen(ps) {
      var k :| 0 <= k < |ps| && IsAltScreen(ps[k]);
      assert (ps + [p])[k] == ps[k];
    }
  }

  /** The handlers that can throw: printing (a store through an entry that
      is not a row), ESC M, and the control sequences J K @ L M P X I Z. */
  predicate CanThrow(a: Parser.Action) {
    || a.Print? || a.ReverseIndex?
    || (a.Control? && a.final in {74, 75, 64, 76, 77, 80, 88, 73, 90})
  }

  /** The outcome of an in-place edit of the table: the new table, or the
      throw, which leaves the fields as they were. */
  function Store(t: Fields, e: Option<seq<Entry>>): (r: (Fields, bool))
    ensures r.1 == e.Some? && r.0 == t.(lines := r.0.lines)
    ensures e.Some? ==> r.0.lines == e.value
    ensures e.None? ==> r.0 == t
  {
    if e.Some? then (t.(lines := e.value), true) else (t, false)
  }

  /** The outcome of an edit that can throw part-way: the table as far as
      it got. */
  function StoreEdit(t: Fields, e: Edit): (r: (Fields, bool))
    ensures r == (t.(lines := e.lines), e.done)
  {
    (t.(lines := e.lines), e.done)
  }

  // ---- the screen ----

  /** `scroll()`: the ring as `Screen.Scroll` leaves it, the viewport on the
      live screen. */
  function Scroll(t: Fields, d: Dims): (r: Fields)
    requires Valid(t, d)
    ensures Valid(r, d) && r.ydisp == r.ybase
    ensures RingOf(r) == Screen.Scroll(RingOf(t), d.cols, d.rows, d.total, t.scrollTop, t.scrollBottom)
    ensures r == t.(lines := r.lines, currentHeight := r.currentHeight, ybase := r.ybase, ydisp := r.ydisp)
  {
    var s := Screen.Scroll(RingOf(t), d.cols, d.rows, d.total, t.scrollTop, t.scrollBottom);
    t.(lines := s.lines, currentHeight := s.height, ybase := s.base, ydisp := s.base)
  }

  /** The line feed of LF, VT, FF, of a character printed past the right
      margin, and of `index`: one row down, or a scroll at the bottom of the
      scroll region. */
  function LineFeed(t: Fields, d: Dims): (r: Fields)
    requires Valid(t, d)
    ensures Valid(r, d)
    ensures (RingOf(r), r.y) == Feed(RingOf(t), t.y, d.cols, d.rows, d.total, t.scrollTop, t.scrollBottom)
    ensures r.ydisp == if t.y + 1 >= t.scrollBottom + 1 then r.ybase else t.ydisp
    ensures r == t.(lines := r.lines, currentHeight := r.currentHeight, ybase := r.ybase, ydisp := r.ydisp, y := r.y)
  {
    if t.y + 1 >= t.scrollBottom + 1 then Scroll(t, d) else t.(y := t.y + 1)
  }

  /** `reset()`: a fresh table of `rows` blank rows, the cursor and the
      viewport home, the whole screen as the scroll region, the normal
      state and nothing queued. */
  function Reset(t: Fields, d: Dims): (r: Fields)
    requires Valid(t, d)
    ensures Valid(r, d)
    ensures SnapshotOf(r) == Snapshot(FreshLines(d.cols, d.rows), d.rows, 0, 0, 0, 0, 0, d.rows - 1)
    ensures r.outputQueue == [] && r.p == t.p.(state := Parser.Normal)
    ensures r == WithSnapshot(t, SnapshotOf(r)).(outputQueue := [], p := r.p)
  {
    WithSnapshot(t, Snapshot(FreshLines(d.cols, d.rows), d.rows, 0, 0, 0, 0, 0, d.rows - 1))
      .(outputQueue := [], p := t.p.(state := Parser.Normal))
  }

  // ---- the handlers of the loop of `write` ----

  /** A printable character: past the right margin a line feed to column
      0 first, then the packed cell stored at the cursor and the cursor one
      column right.  The store throws when the row's entry is not a row,
      after the wrap. */
  function Print(t: Fields, d: Dims, ch: CodeUnit): (r: (Fields, bool))
    requires Valid(t, d)
    ensures Valid(r.0, d) && r.0.p == t.p
    ensures r.0.curAttr == t.curAttr && r.0.outputQueue == t.outputQueue && r.0.normal == t.normal
  {
    var t1 := if t.x >= d.cols then LineFeed(t, d).(x := 0) else t;
    match PutCell(t1.lines, Phys(RingOf(t1), t1.y), t1.x, Pack(ch, t1.curAttr))
    case Some(l) => (t1.(lines := l, x := t1.x + 1), true)
    case None => (t1, false)
  }

  /** ESC M: one row up, or at the top of the scroll region `OpenRow` at
      the cursor; a throw leaves the state escaped. */
  function ReverseIndex(t: Fields, d: Dims): (r: (Fields, bool))
    requires Valid(t, d)
    ensures Valid(r.0, d)
    ensures r.1 ==> r.0.p == t.p.(state := Parser.Normal)
    ensures !r.1 ==> r.0.p == t.p
    ensures r.0 == t.(lines := r.0.lines, y := r.0.y, p := r.0.p)
  {
    if t.y - 1 >= t.scrollTop then (t.(y := t.y - 1, p := t.p.(state := Parser.Normal)), true)
    else OpenAtCursor(t, d)
  }

  /** ESC M at the top of the scroll region: `OpenRow` at the cursor, and
      the normal state unless it threw. */
  function OpenAtCursor(t: Fields, d: Dims): (r: (Fields, bool))
    requires Valid(t, d)
    ensures Valid(r.0, d)
    ensures r.1 ==> r.0.p == t.p.(state := Parser.Normal)
    ensures !r.1 ==> r.0.p == t.p
    ensures r.0 == t.(lines := r.0.lines, p := r.0.p)
  {
    var e := OpenRow(RingOf(t), d.cols, d.rows, t.scrollBottom, t.x, t.y);
    if e.done then (t.(lines := e.lines, p := t.p.(state := Parser.Normal)), true)
    else (t.(lines := e.lines), false)
  }

  /** NUL, BEL, CR, BS, HT, ESC 7 and ESC 8. */
  function PerformInline(t: Fields, d: Dims, a: Parser.Action): (r: Fields)
    requires Valid(t, d)
    ensures Valid(r, d)
    ensures r == t.(x := r.x, y := r.y, savedX := r.savedX, savedY := r.savedY)
  {
    if a.CarriageReturn? then t.(x := 0)
    else if a.Backspace? then (if t.x > 0 then t.(x := t.x - 1) else t)
    else if a.Tab? then t.(x := TabStop(t.x, d.cols))
    else if a.SaveCursor? then t.(savedX := t.x, savedY := t.y)
    else if a.RestoreCursor? then t.(x := t.savedX, y := t.savedY)
    else t
  }

  /** LF, VT and FF; ESC E, which also returns to column 0; ESC D. */
  function PerformFeed(t: Fields, d: Dims, a: Parser.Action): (r: Fields)
    requires Valid(t, d) && (a.LineFeed? || a.NextLine? || a.Index?)
    ensures Valid(r, d) && r.p == Parser.After(t.p, a)
  {
    if a.LineFeed? then LineFeed(t, d)
    else if a.NextLine? then LineFeed(t.(x := 0), d).(p := t.p.(state := Parser.Normal))
    else LineFeed(t, d).(p := t.p.(state := Parser.Normal))
  }

  /** The handlers that cannot throw, outside control sequences. */
  function PerformSimple(t: Fields, d: Dims, a: Parser.Action): (r: Fields)
    requires Valid(t, d)
    requires a.NoAction? || a.Bell? || a.LineFeed? || a.CarriageReturn? || a.Backspace? || a.Tab?
      || a.FullReset? || a.NextLine? || a.Index? || a.SaveCursor? || a.RestoreCursor?
    ensures Valid(r, d) && r.p == Parser.After(t.p, a)
  {
    if a.FullReset? then Reset(t, d)
    else if a.LineFeed? || a.NextLine? || a.Index? then PerformFeed(t, d, a)
    else PerformInline(t, d, a)
  }

  // ---- the handlers of control sequences ----

  /** CUU, CUD, CUF, CUB and CUP: only the cursor moves. */
  function DispatchCursor(t: Fields, d: Dims, f: CodeUnit): (r: Fields)
    requires Valid(t, d) && |t.p.params| >= 1
    ensures Valid(r, d) && r == t.(x := r.x, y := r.y)
  {
    var ps := t.p.params;
    if f == 65 then t.(y := Back(t.y, ps[0]))
    else if f == 66 then t.(y := Down(t.y, ps[0], d.rows))
    else if f == 67 then t.(x := Right(t.x, ps[0], d.cols))
    else if f == 68 then t.(x := Back(t.x, ps[0]))
    else if f == 72 then t.(x := CupColumn(ps, d.cols), y := Coordinate(ps[0], d.rows))
    else t
  }

  /** CNL, CPL, CHA, HPA and HPR: only the cursor moves. */
  function DispatchColumn(t: Fields, d: Dims, f: CodeUnit): (r: Fields)
    requires Valid(t, d) && |t.p.params| >= 1
    ensures Valid(r, d) && r == t.(x := r.x, y := r.y)
  {
    var ps := t.p.params;
    if f == 69 then t.(y := Down(t.y, ps[0], d.rows), x := 0)
    else if f == 70 then t.(y := Back(t.y, ps[0]), x := 0)
    else if f == 71 then t.(x := CharAbsolute(ps[0]))
    else if f == 96 then t.(x := Absolute(ps[0], d.cols))
    else if f == 97 then t.(x := Right(t.x, ps[0], d.cols))
    else t
  }

  /** VPA, VPR and HVP (which rewrites the parameters in place). */
  function DispatchRow(t: Fields, d: Dims, f: CodeUnit): (r: Fields)
    requires Valid(t, d) && |t.p.params| >= 1
    ensures Valid(r, d)
    ensures f != 104 && f != 108 ==> r.p == t.p.(params := Parser.ControlParams(f, t.p.params))
    ensures r == t.(x := r.x, y := r.y, p := r.p)
  {
    var ps := t.p.params;
    if f == 100 then t.(y := Absolute(ps[0], d.rows))
    else if f == 101 then t.(y := Down(t.y, ps[0], d.rows))
    else if f == 102 then
      t.(p := t.p.(params := Parser.HvpParams(ps)), y := Absolute(ps[0], d.rows), x := HvpColumn(ps, d.cols))
    else t
  }

  /** DECSTBM (ignored after `?`), and the ANSI.SYS save and restore. */
  function DispatchRegion(t: Fields, d: Dims, f: CodeUnit): (r: Fields)
    requires Valid(t, d) && Parser.Wellformed(t.p) && |t.p.params| >= 1
    ensures Valid(r, d)
    ensures r == t.(x := r.x, y := r.y, scrollTop := r.scrollTop, scrollBottom := r.scrollBottom,
                    savedX := r.savedX, savedY := r.savedY)
  {
    var ps := t.p.params;
    if f == 114 then
      (if t.p.prefix == [63] then t else t.(scrollTop := RegionTop(ps), scrollBottom := RegionBottom(ps, d.rows)))
    else if f == 115 then t.(savedX := t.x, savedY := t.y)
    else if f == 117 then t.(x := t.savedX, y := t.savedY)
    else t
  }

  /** The handlers that move the cursor, set the scroll region or save and
      restore the cursor. */
  function DispatchMove(t: Fields, d: Dims, f: CodeUnit): (r: Fields)
    requires Valid(t, d) && Parser.Wellformed(t.p) && |t.p.params| >= 1 && f != 104 && f != 108
    ensures Valid(r, d) && r.p == t.p.(params := Parser.ControlParams(f, t.p.params))
    ensures r.lines == t.lines && r.curAttr == t.curAttr && r.outputQueue == t.outputQueue
  {
    if f in {65, 66, 67, 68, 72} then DispatchCursor(t, d, f)
    else if f in {69, 70, 71, 96, 97} then DispatchColumn(t, d, f)
    else if f in {100, 101, 102} then DispatchRow(t, d, f)
    else DispatchRegion(t, d, f)
  }

  /** ED, EL and ICH: only the table changes, and each can throw. */
  function DispatchErase(t: Fields, d: Dims, f: CodeUnit): (r: (Fields, bool))
    requires Valid(t, d) && |t.p.params| >= 1
    ensures Valid(r.0, d) && r.0 == t.(lines := r.0.lines)
    ensures !r.1 ==> CanThrow(Parser.Control(f))
  {
    if f == 74 then StoreEdit(t, EraseBelow(RingOf(t), d.cols, d.rows, t.x, t.y))
    else if f == 75 then Store(t, EraseLine(RingOf(t), d.cols, t.x, t.y))
    else if f == 64 then Store(t, InsertChars(t.lines, t.y + t.ybase, t.x, AtLeast1(t.p.params[0]), d.cols))
    else (t, true)
  }

  /** IL and DL: only the table changes, and each can throw. */
  function DispatchLines(t: Fields, d: Dims, f: CodeUnit): (r: (Fields, bool))
    requires Valid(t, d) && |t.p.params| >= 1
    ensures Valid(r.0, d) && r.0 == t.(lines := r.0.lines)
    ensures !r.1 ==> CanThrow(Parser.Control(f))
  {
    var n := AtLeast1(t.p.params[0]);
    if f == 76 then StoreEdit(t, InsertLines(RingOf(t), n, d.cols, d.rows, t.scrollBottom, t.y))
    else if f == 77 then StoreEdit(t, DeleteLinesAsWritten(RingOf(t), n, d.cols, d.rows, t.scrollBottom, t.y))
    else (t, true)
  }

  /** DCH and ECH: only the table changes, and each can throw. */
  function DispatchDelete(t: Fields, d: Dims, f: CodeUnit): (r: (Fields, bool))
    requires Valid(t, d) && |t.p.params| >= 1
    ensures Valid(r.0, d) && r.0 == t.(lines := r.0.lines)
    ensures !r.1 ==> CanThrow(Parser.Control(f))
  {
    var n := AtLeast1(t.p.params[0]);
    if f == 80 then Store(t, DeleteCharsAsWritten(t.lines, t.y + t.ybase, t.x, n))
    else if f == 88 then Store(t, EraseChars(t.lines, t.y + t.ybase, t.x, n, d.cols))
    else (t, true)
  }

  /** CBT and CHT: the table and the column change; each can throw and CHT
      always does. */
  function DispatchTab(t: Fields, d: Dims, f: CodeUnit): (r: (Fields, bool))
    requires Valid(t, d) && Parser.Wellformed(t.p) && |t.p.params| >= 1
    ensures Valid(r.0, d) && r.0 == t.(lines := r.0.lines, x := r.0.x)
    ensures !r.1 ==> CanThrow(Parser.Control(f))
    ensures f == 73 ==> !r.1
  {
    if f == 90 then
      var (e, nx) := BackTab(t.lines, t.y + t.ybase, t.x, TabCount(t.p.params[0]));
      Store(t.(x := nx), e)
    else if f == 73 then (t, false)
    else (t, true)
  }

  /** SM with every code of the list handled: after `?` the cursor is
      shown when 25 is among the codes, and the normal screen is saved and
      the screen reset at the first alternate-screen code when no snapshot
      exists yet.  The list ends empty. */
  function SetMode(t: Fields, d: Dims): (r: Fields)
    requires Valid(t, d)
    ensures Valid(r, d)
  {
    var ps := t.p.params;
    var t1 := if t.p.prefix == [63] && t.normal.None? && AnyAltScreen(ps)
      then Reset(t, d).(normal := Some(SnapshotOf(t))) else t;
    t1.(cursorHidden := if t.p.prefix == [63] && 25 in ps then false else t.cursorHidden,
        p := t1.p.(params := []))
  }

  /** RM with every code of the list handled: after `?` the cursor is
      hidden when 25 is among the codes, and the saved normal screen comes
      back (and the snapshot is forgotten) at the first alternate-screen
      code.  The list ends empty. */
  function ResetMode(t: Fields, d: Dims): (r: Fields)
    requires Valid(t, d)
    ensures Valid(r, d)
  {
    var ps := t.p.params;
    var t1 := if t.p.prefix == [63] && t.normal.Some? && AnyAltScreen(ps)
      then WithSnapshot(t, t.normal.value).(normal := None) else t;
    t1.(cursorHidden := if t.p.prefix == [63] && 25 in ps then true else t.cursorHidden,
        p := t1.p.(params := []))
  }

  /** The fields `u` are those `SetMode` leaves, given field by field. */
  lemma SetModeOf(t: Fields, d: Dims, u: Fields)
    requires Valid(t, d)
    requires u.p.params == [] && u.p.currentParam == t.p.currentParam
    requires u.p.prefix == t.p.prefix && u.p.postfix == t.p.postfix
    requires u.curAttr == t.curAttr && u.savedX == t.savedX && u.savedY == t.savedY
    requires u.cursorHidden == if t.p.prefix == [63] && 25 in t.p.params then false else t.cursorHidden
    requires t.p.prefix == [63] && t.normal.None? && AnyAltScreen(t.p.params) ==>
      && u.normal == Some(SnapshotOf(t)) && u.outputQueue == [] && u.p.state == Parser.Normal
      && SnapshotOf(u) == Snapshot(FreshLines(d.cols, d.rows), d.rows, 0, 0, 0, 0, 0, d.rows - 1)
    requires !(t.p.prefix == [63] && t.normal.None? && AnyAltScreen(t.p.params)) ==>
      && u.normal == t.normal && u.outputQueue == t.outputQueue && u.p.state == t.p.state
      && SnapshotOf(u) == SnapshotOf(t)
    ensures u == SetMode(t, d)
  {
  }

  /** The fields `u` are those `ResetMode` leaves, given field by field. */
  lemma ResetModeOf(t: Fields, d: Dims, u: Fields)
    requires Valid(t, d)
    requires u.p == t.p.(params := [])
    requires u.curAttr == t.curAttr && u.savedX == t.savedX && u.savedY == t.savedY
    requires u.outputQueue == t.outputQueue
    requires u.cursorHidden == if t.p.prefix == [63] && 25 in t.p.params then true else t.cursorHidden
    requires t.p.prefix == [63] && t.normal.Some? && AnyAltScreen(t.p.params) ==>
      u.normal == None && SnapshotOf(u) == t.normal.value
    requires !(t.p.prefix == [63] && t.normal.Some? && AnyAltScreen(t.p.params)) ==>
      u.normal == t.normal && SnapshotOf(u) == SnapshotOf(t)
    ensures u == ResetMode(t, d)
  {
  }

  /** SM and RM. */
  function DispatchMode(t: Fields, d: Dims, f: CodeUnit): (r: Fields)
    requires Valid(t, d) && t.p.state == Parser.Normal
    ensures Valid(r, d) && r.p == t.p.(params := [])
    ensures r.curAttr == t.curAttr && r.savedX == t.savedX && r.savedY == t.savedY
  {
    if f == 104 then SetMode(t, d) else ResetMode(t, d)
  }

  /** The report DSR queues for the code `p` with the cursor at (`x`, `y`):
      the status for 5, the 1-based position for 6, nothing otherwise. */
  function Report(p: int, x: nat, y: nat): seq<CodeUnit> {
    if p == 5 then Parser.StatusReport
    else if p == 6 then Parser.PositionReport(y + 1, x + 1)
    else []
  }

  /** SGR, DSR, SU and SD (CSI T only without `>` and with one parameter);
      the other finals do nothing. */
  function DispatchOther(t: Fields, d: Dims, f: CodeUnit): (r: Fields)
    requires Valid(t, d) && Parser.Wellformed(t.p) && |t.p.params| >= 1
    ensures Valid(r, d)
    ensures r == t.(curAttr := r.curAttr, outputQueue := r.outputQueue, ydisp := r.ydisp)
  {
    var ps := t.p.params;
    if f == 109 then t.(curAttr := Sgr.CharAttributes(t.curAttr, ps))
    else if f == 110 then t.(outputQueue := t.outputQueue + Report(ps[0], t.x, t.y))
    else if f == 83 then
      StepsKeepRange(t.ydisp, WrapOnce(t.ybase, d.rows, t.currentHeight), t.currentHeight, -ScrollUpBy(ps[0]));
      t.(ydisp := Backward(t.ydisp, WrapOnce(t.ybase, d.rows, t.currentHeight), t.currentHeight, -ScrollUpBy(ps[0])))
    else if f == 84 && t.p.prefix != [62] && |ps| <= 1 then
      StepsKeepRange(t.ydisp, t.ybase, t.currentHeight, ScrollDownBy(ps[0]));
      t.(ydisp := Forward(t.ydisp, t.ybase, t.currentHeight, ScrollDownBy(ps[0])))
    else t
  }

  /** The `switch` on the final byte of a control sequence, the state
      already normal.  Unknown finals, CSI c and CSI p do nothing. */
  function Dispatch(t: Fields, d: Dims, f: CodeUnit): (r: (Fields, bool))
    requires Valid(t, d) && Parser.Wellformed(t.p) && t.p.state == Parser.Normal && |t.p.params| >= 1
    ensures Valid(r.0, d) && r.0.p == t.p.(params := Parser.ControlParams(f, t.p.params))
    ensures !r.1 ==> CanThrow(Parser.Control(f))
    ensures f == 73 ==> !r.1
  {
    if f in {65, 66, 67, 68, 72, 69, 70, 71, 96, 97, 100, 101, 102, 114, 115, 117} then (DispatchMove(t, d, f), true)
    else if f in {74, 75, 64} then DispatchErase(t, d, f)
    else if f in {76, 77} then DispatchLines(t, d, f)
    else if f in {80, 88} then DispatchDelete(t, d, f)
    else if f in {90, 73} then DispatchTab(t, d, f)
    else if f == 104 || f == 108 then (DispatchMode(t, d, f), true)
    else (DispatchOther(t, d, f), true)
  }

  /** A control sequence: its handler, then the prefix and the postfix
      cleared, unless the handler threw. */
  function PerformControl(t: Fields, d: Dims, f: CodeUnit): (r: (Fields, bool))
    requires Valid(t, d) && Parser.Wellformed(t.p) && t.p.state == Parser.Normal && |t.p.params| >= 1
    ensures Valid(r.0, d)
    ensures r.1 ==> r.0.p == Parser.After(t.p, Parser.Control(f))
    ensures !r.1 ==> CanThrow(Parser.Control(f)) && r.0.p == t.p
  {
    var r := Dispatch(t, d, f);
    if r.1 then (r.0.(p := r.0.p.(prefix := [], postfix := [])), true) else r
  }

  /** The handler that runs for one code unit, `a` as `Parser.Scan` chose
      it.  A handler that throws leaves the recogniser's fields as it found
      them; otherwise they are as `Parser.After` says. */
  function Perform(t: Fields, d: Dims, a: Parser.Action): (r: (Fields, bool))
    requires Valid(t, d) && Parser.Wellformed(t.p)
    requires a.Control? ==> t.p.state == Parser.Normal && |t.p.params| >= 1
    ensures Valid(r.0, d)
    ensures r.1 ==> r.0.p == Parser.After(t.p, a)
    ensures !r.1 ==> CanThrow(a) && r.0.p == t.p
  {
    if a.Control? then PerformControl(t, d, a.final)
    else if a.Print? then Print(t, d, a.ch)
    else if a.ReverseIndex? then ReverseIndex(t, d)
    else (PerformSimple(t, d, a), true)
  }

  // ---- the loop of `write` ----

  /** The loop of `write` from the code unit at index `i` on: scan it, run
      its handler, and go on after it (after the next one too when an OSC
      string ends with ESC), until the string ends or a handler throws. */
  function Run(t: Fields, d: Dims, s: seq<CodeUnit>, i: nat): (r: (Fields, Outcome))
    requires Valid(t, d) && Parser.Wellformed(t.p) && i <= |s|
    ensures Valid(r.0, d) && Parser.Wellformed(r.0.p)
    ensures r.1.Threw? ==> i <= r.1.at < |s|
    decreases |s| - i
  {
    if i == |s| then (t, Done)
    else
      var st := Parser.Scan(t.p, s[i]);
      Parser.ScanWellformed(t.p, s[i]);
      var (t1, ok) := Perform(t.(p := st.parser), d, st.action);
      if !ok then (t1, Threw(i))
      else
        Parser.AfterWellformed(st.parser, st.action);
        Run(t1, d, s, if st.skip && i + 1 < |s| then i + 2 else i + 1)
  }

  /** `write(str)`: the viewport back on the live screen, then the loop
      over the whole string. */
  function Write(t: Fields, d: Dims, s: seq<CodeUnit>): (r: (Fields, Outcome))
    requires Valid(t, d) && Parser.Wellformed(t.p)
    ensures Valid(r.0, d) && Parser.Wellformed(r.0.p)
    ensures r.1.Threw? ==> r.1.at < |s|
  {
    Run(t.(ydisp := t.ybase), d, s, 0)
  }

  /** When no handler throws, the loop leaves the recogniser's fields as
      `Parser.Run` says: the handlers and the recogniser agree. */
  lemma {:induction false} RunParser(t: Fields, d: Dims, s: seq<CodeUnit>, i: nat)
    requires Valid(t, d) && Parser.Wellformed(t.p) && i <= |s|
    ensures Run(t, d, s, i).1.Done? ==> Run(t, d, s, i).0.p == Parser.Run(t.p, s[i..])
    decreases |s| - i
  {
    if i < |s| {
      var st := Parser.Scan(t.p, s[i]);
      Parser.ScanWellformed(t.p, s[i]);
      var (t1, ok) := Perform(t.(p := st.parser), d, st.action);
      if ok {
        Parser.AfterWellformed(st.parser, st.action);
        var j := if st.skip && i + 1 < |s| then i + 2 else i + 1;
        RunParser(t1, d, s, j);
        if st.skip && i + 1 < |s| {
          assert s[i..][2..] == s[j..];
        } else {
          assert s[i..][1..] == s[j..];
        }
      }
    }
  }

  /** CUP to an in-range row `r` and column `c`, then DSR 6: the report
      queued is `ESC [ r ; c R`, the position just set. */
  lemma CupThenReport(t: Fields, d: Dims, r: int, c: int)
    requires Valid(t, d) && Parser.Wellformed(t.p) && t.p.state == Parser.Normal
    requires t.p.params == [r, c] && 1 <= r <= d.rows && 1 <= c <= d.cols
    ensures var u := Dispatch(t, d, 72).0;
      Dispatch(u.(p := u.p.(params := [6])), d, 110).0.outputQueue == t.outputQueue + Parser.PositionReport(r, c)
  {
    CupReportsItself(r, c, d.rows, d.cols);
    var u := Dispatch(t, d, 72).0;
    assert u == DispatchMove(t, d, 72) == DispatchCursor(t, d, 72);
    assert u.y == r - 1 && u.x == c - 1;
    var w := u.(p := u.p.(params := [6]));
    assert Dispatch(w, d, 110).0 == DispatchOther(w, d, 110);
  }

  /** CSI ? 1049 h then CSI ? 1049 l: the alternate screen starts fresh,
      and leaving it brings back the normal screen exactly as it was. */
  lemma AltScreenRoundTrip(t: Fields, d: Dims)
    requires Valid(t, d) && Parser.Wellformed(t.p) && t.p.state == Parser.Normal && t.normal.None?
    requires t.p.prefix == [63] && t.p.params == [1049]
    ensures var u := Dispatch(t, d, 104).0;
      && SnapshotOf(u) == Snapshot(FreshLines(d.cols, d.rows), d.rows, 0, 0, 0, 0, 0, d.rows - 1)
      && var v := Dispatch(u.(p := u.p.(params := [1049])), d, 108).0;
      && SnapshotOf(v) == SnapshotOf(t) && v.normal == None
  {
    assert AnyAltScreen(t.p.params) by { assert IsAltScreen(t.p.params[0]); }
  }
}
