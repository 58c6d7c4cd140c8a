/** What inserting and deleting lines does to the live screen, in the
    default scroll region and while the screen does not wrap round the end
    of the ring (`ybase + rows <= currentHeight`, always the case while the
    ring is still growing).  There the unwrapped index `y + ybase` that
    `insertLines` and `deleteLines` use is the cursor row's table slot. */
module LineLaws {
  import opened Cells
  import opened JsArray
  import opened Rows
  import opened Viewport
  import opened Screen

  /** `k` rows of blanks. */
  function BlankRows(cols: nat, k: nat): (r: seq<Entry>)
    ensures |r| == k && forall i :: 0 <= i < k ==> r[i] == BlankRow(cols)
  {
    seq(k, _ => BlankRow(cols))
  }

  /** The screen does not wrap: screen row `k` is table slot `ybase + k`. */
  predicate Flat(r: Ring, rows: nat) {
    0 <= r.base && r.base + rows <= r.height
  }

  lemma FlatLive(r: Ring, rows: nat, k: int)
    requires Flat(r, rows) && |r.lines| == r.height && 0 <= k < rows
    ensures LiveScreen(r, rows)[k] == r.lines[r.base + k]
  {
  }

  /** The live screen of a flat ring, read slot by slot. */
  lemma LiveOfFlat(r: Ring, rows: nat, l: seq<Entry>, t: seq<Entry>)
    requires Flat(r, rows) && |l| == r.height && |t| == rows
    requires forall k :: 0 <= k < rows ==> l[r.base + k] == t[k]
    ensures LiveScreen(r.(lines := l), rows) == t
  {
    forall k | 0 <= k < rows
      ensures LiveScreen(r.(lines := l), rows)[k] == t[k]
    {
      FlatLive(r.(lines := l), rows, k);
    }
  }

  /** The live screen of a flat ring is a slice of its table. */
  lemma LiveIsSlice(r: Ring, rows: nat)
    requires Flat(r, rows) && |r.lines| == r.height
    ensures LiveScreen(r, rows) == r.lines[r.base..r.base + rows]
  {
    forall k | 0 <= k < rows
      ensures LiveScreen(r, rows)[k] == r.lines[r.base..r.base + rows][k]
    {
      FlatLive(r, rows, k);
    }
  }

  /** A table that agrees with a flat ring's table outside the screen
      keeps the rows before `base` and from `base + rows` on. */
  lemma OutsideKept(r: Ring, rows: nat, l: seq<Entry>)
    requires Flat(r, rows) && |r.lines| == r.height && |l| == r.height
    requires forall i :: 0 <= i < r.height && (i < r.base || i >= r.base + rows) ==> l[i] == r.lines[i]
    ensures l[..r.base] == r.lines[..r.base]
    ensures l[r.base + rows..] == r.lines[r.base + rows..]
  {
    var m := r.base + rows;
    forall i | 0 <= i < r.height - m
      ensures l[m..][i] == r.lines[m..][i]
    {
      assert l[m..][i] == l[m + i];
    }
  }

  /** The live screen of a flat ring whose screen rows from `y` on moved
      down one slot, with `v` put at `y`. */
  lemma ShiftedDownLive(r: Ring, rows: nat, l: seq<Entry>, y: int, v: Entry)
    requires Flat(r, rows) && |r.lines| == r.height && |l| == r.height && 0 <= y < rows
    requires l[r.base + y] == v
    requires forall i :: 0 <= i < r.height && i < r.base + y ==> l[i] == r.lines[i]
    requires forall i :: r.base + y <= i < r.base + rows - 1 ==> l[i + 1] == r.lines[i]
    ensures var s := LiveScreen(r, rows);
      LiveScreen(r.(lines := l), rows) == s[..y] + [v] + s[y..rows - 1]
  {
    var s := LiveScreen(r, rows);
    var b := r.base;
    var t := s[..y] + [v] + s[y..rows - 1];
    forall k | 0 <= k < rows
      ensures l[b + k] == t[k]
    {
      if k < y {
        FlatLive(r, rows, k);
      } else if k > y {
        FlatLive(r, rows, k - 1);
        assert l[(b + k - 1) + 1] == r.lines[b + k - 1];
      }
      InsertedAt(s, v, y, rows - 1, k);
    }
    LiveOfFlat(r, rows, l, t);
  }

  /** The live screen of a flat ring whose screen rows after `y` moved up
      one slot, with `v` put in the last screen row. */
  lemma ShiftedUpLive(r: Ring, rows: nat, l: seq<Entry>, y: int, v: Entry)
    requires Flat(r, rows) && |r.lines| == r.height && |l| == r.height && 0 <= y < rows
    requires l[r.base + rows - 1] == v
    requires forall i :: 0 <= i < r.height && i < r.base + y ==> l[i] == r.lines[i]
    requires forall i :: r.base + y <= i < r.base + rows - 1 ==> l[i] == r.lines[i + 1]
    ensures var s := LiveScreen(r, rows);
      LiveScreen(r.(lines := l), rows) == s[..y] + s[y + 1..] + [v]
  {
    var s := LiveScreen(r, rows);
    var b := r.base;
    var t := s[..y] + s[y + 1..] + [v];
    forall k | 0 <= k < rows
      ensures l[b + k] == t[k]
    {
      if k < y {
        FlatLive(r, rows, k);
        assert t[k] == (s[..y])[k];
      } else if k < rows - 1 {
        FlatLive(r, rows, k + 1);
        assert t[k] == s[y + 1..][k - y];
      }
    }
    LiveOfFlat(r, rows, l, t);
  }

  /** The erase inside one `insertLines` turn on a flat screen: the fresh
      empty row sits at `b + y` and is filled from column `x`. */
  lemma OpenRowErase(r: Ring, cols: nat, rows: nat, x: nat, y: int)
    requires Flat(r, rows) && |r.lines| == r.height && 0 <= y < rows && x < cols
    ensures EraseLine(Ring(Splice(r.lines, y + r.base, 0, [Row([])]), r.height, r.base), cols, x, y)
      == Some(Splice(r.lines, r.base + y, 0, [Row(FillFrom([], x, cols))]))
  {
    var b := r.base;
    var l1 := Splice(r.lines, y + b, 0, [Row([])]);
    assert l1[b + y..b + y + 1] == [Row([])];
    assert Phys(Ring(l1, r.height, b), y) == b + y;
    InsertThenSet(r.lines, b + y, Row([]), Row(FillFrom([], x, cols)));
  }

  /** A turn whose erase succeeds with `l2` takes the entry at `out` out of `l2`. */
  lemma SpliceTurnOf(r: Ring, cols: nat, at: int, x: nat, ey: int, out: int, l2: seq<Entry>)
    requires EraseLine(Ring(Splice(r.lines, at, 0, [Row([])]), r.height, r.base), cols, x, ey) == Some(l2)
    ensures SpliceTurn(r, cols, at, x, ey, out) == Edit(Splice(l2, out, 1, []), true)
  {
  }

  /** Reading `s[..y] + [v] + s[y..m]` slot by slot. */
  lemma InsertedAt<T>(s: seq<T>, v: T, y: int, m: int, k: int)
    requires 0 <= y <= m <= |s| && 0 <= k <= m
    ensures var t := s[..y] + [v] + s[y..m];
      && |t| == m + 1
      && (k < y ==> t[k] == s[k])
      && (k == y ==> t[k] == v)
      && (k > y ==> t[k] == s[k - 1])
  {
  }

  /** The table after one turn of `insertLines` on a flat screen. */
  lemma OpenRowShape(r: Ring, cols: nat, rows: nat, x: nat, y: int)
    requires Flat(r, rows) && |r.lines| == r.height && 0 <= y < rows && x < cols
    ensures var e := OpenRow(r, cols, rows, rows - 1, x, y);
      var b := r.base;
      && e.done && |e.lines| == r.height
      && e.lines[b + y] == Row(FillFrom([], x, cols))
      && (forall i :: 0 <= i < r.height && (i < b + y || i >= b + rows) ==> e.lines[i] == r.lines[i])
      && (forall i :: b + y <= i < b + rows - 1 ==> e.lines[i + 1] == r.lines[i])
  {
    OpenRowValue(r, cols, rows, x, y);
    RotateDown(r.lines, r.base + y, RegionEnd(r.base, rows, rows - 1), Row(FillFrom([], x, cols)));
  }

  /** One turn of `insertLines` on a flat screen as two splices of the table. */
  lemma OpenRowValue(r: Ring, cols: nat, rows: nat, x: nat, y: int)
    requires Flat(r, rows) && |r.lines| == r.height && 0 <= y < rows && x < cols
    ensures OpenRow(r, cols, rows, rows - 1, x, y) == Edit(Splice(Splice(r.lines, r.base + y, 0, [Row(FillFrom([], x, cols))]),
      RegionEnd(r.base, rows, rows - 1) + 1, 1, []), true)
  {
    OpenRowErase(r, cols, rows, x, y);
    SpliceTurnOf(r, cols, y + r.base, x, y, RegionEnd(r.base, rows, rows - 1) + 1,
      Splice(r.lines, r.base + y, 0, [Row(FillFrom([], x, cols))]));
  }

  /** One turn of `insertLines` (or `reverseIndex` at the top row) pushes the
      screen rows from `y` on down by one, drops the last one, and puts at
      `y` the row `eraseLine(x, y)` makes of an empty array: holes left of
      `x`, blanks from `x` on.  Nothing outside the screen changes. */
  lemma OpenRowFlat(r: Ring, cols: nat, rows: nat, total: int, x: nat, y: int)
    requires Tidy(r, cols, rows, total) && Flat(r, rows) && 0 <= y < rows && x < cols
    ensures var e := OpenRow(r, cols, rows, rows - 1, x, y);
      var s := LiveScreen(r, rows);
      && e.done
      && Tidy(r.(lines := e.lines), cols, rows, total)
      && LiveScreen(r.(lines := e.lines), rows) == s[..y] + [Row(FillFrom([], x, cols))] + s[y..rows - 1]
      && e.lines[..r.base] == r.lines[..r.base]
      && e.lines[r.base + rows..] == r.lines[r.base + rows..]
  {
    OpenRowShape(r, cols, rows, x, y);
    var e := OpenRow(r, cols, rows, rows - 1, x, y);
    var b := r.base;
    FillFromCells([], x, cols);
    forall i | 0 <= i < |e.lines|
      ensures e.lines[i].Row? && |e.lines[i].cells| == cols
    {
      if b + y < i < b + rows {
        assert e.lines[(i - 1) + 1] == r.lines[i - 1];
      }
    }
    ShiftedDownLive(r, rows, e.lines, y, Row(FillFrom([], x, cols)));
    OutsideKept(r, rows, e.lines);
  }

  /** Reading `a + m + c` slot by slot. */
  lemma ThreeAt<T>(a: seq<T>, m: seq<T>, c: seq<T>, i: int)
    requires 0 <= i < |a| + |m| + |c|
    ensures (a + m + c)[i] == if i < |a| then a[i] else if i < |a| + |m| then m[i - |a|] else c[i - |a| - |m|]
  {
  }

  /** Table slot `j` after `k` blank rows went in at screen row `y` of a
      flat ring based at `b`, read off the table `l` from before: the slots
      off the screen keep their entries. */
  function InsertedSlot(l: seq<Entry>, cols: nat, b: int, rows: int, y: int, k: int, j: int): Entry {
    if j < b + y || j >= b + rows then EntryAt(l, j)
    else if j < b + y + k then BlankRow(cols)
    else EntryAt(l, j - k)
  }

  /** Slot by slot `InsertedSlot` on a flat ring is, on the live screen,
      `k` blank rows at row `y` pushing the rows below them down. */
  lemma InsertedLive(r: Ring, rows: nat, l: seq<Entry>, cols: nat, y: int, k: int)
    requires Flat(r, rows) && |r.lines| == r.height && |l| == r.height && 0 <= y < rows && 0 <= k <= rows - y
    requires forall j :: 0 <= j < r.height ==> l[j] == InsertedSlot(r.lines, cols, r.base, rows, y, k, j)
    ensures var s := LiveScreen(r, rows);
      LiveScreen(r.(lines := l), rows) == s[..y] + BlankRows(cols, k) + s[y..rows - k]
  {
    var s := LiveScreen(r, rows);
    var b := r.base;
    var t := s[..y] + BlankRows(cols, k) + s[y..rows - k];
    forall i | 0 <= i < rows
      ensures l[b + i] == t[i]
    {
      ThreeAt(s[..y], BlankRows(cols, k), s[y..rows - k], i);
      assert l[b + i] == InsertedSlot(r.lines, cols, b, rows, y, k, b + i);
      if i < y {
        FlatLive(r, rows, i);
      } else if i >= y + k {
        FlatLive(r, rows, i - k);
      }
    }
    LiveOfFlat(r, rows, l, t);
  }

  /** Blank rows in at `y` keep every slot of a tidy ring a full row. */
  lemma InsertedTidy(r: Ring, l: seq<Entry>, cols: nat, rows: nat, total: int, y: int, k: int)
    requires Tidy(r, cols, rows, total) && Flat(r, rows) && |l| == r.height && 0 <= y < rows && 0 <= k
    requires forall j :: 0 <= j < r.height ==> l[j] == InsertedSlot(r.lines, cols, r.base, rows, y, k, j)
    ensures Tidy(r.(lines := l), cols, rows, total)
  {
    forall j | 0 <= j < |l|
      ensures l[j].Row? && |l[j].cells| == cols
    {
      assert l[j] == InsertedSlot(r.lines, cols, r.base, rows, y, k, j);
    }
  }

  /** One `insertLines` turn from column 0 on a flat ring completes and puts
      one blank row in at the cursor row. */
  lemma OpenRowSlots(r: Ring, cols: nat, rows: nat, y: int)
    requires Flat(r, rows) && |r.lines| == r.height && 0 <= y < rows && cols >= 1
    ensures var t := OpenRow(r, cols, rows, rows - 1, 0, y);
      && t.done && |t.lines| == r.height
      && forall j :: 0 <= j < r.height ==> t.lines[j] == InsertedSlot(r.lines, cols, r.base, rows, y, 1, j)
  {
    OpenRowShape(r, cols, rows, 0, y);
    FillFromEmpty(cols);
    var t := OpenRow(r, cols, rows, rows - 1, 0, y);
    var b := r.base;
    forall j | 0 <= j < r.height
      ensures t.lines[j] == InsertedSlot(r.lines, cols, b, rows, y, 1, j)
    {
      if b + y < j < b + rows {
        assert t.lines[(j - 1) + 1] == r.lines[j - 1];
      }
    }
  }

  /** `k1` blank rows in at `y`, then one more: `k1 + 1` rows in, at most as
      many as there are from `y` down. */
  lemma InsertedCompose(l0: seq<Entry>, l1: seq<Entry>, l2: seq<Entry>, cols: nat, b: int, rows: int, y: int, k1: int)
    requires 0 <= b && |l1| == |l2| && 0 <= y < rows && 0 <= k1 <= rows - y
    requires forall j :: 0 <= j < |l1| ==> l1[j] == InsertedSlot(l0, cols, b, rows, y, k1, j)
    requires forall j :: 0 <= j < |l1| ==> l2[j] == InsertedSlot(l1, cols, b, rows, y, 1, j)
    ensures forall j :: 0 <= j < |l1| ==> l2[j] == InsertedSlot(l0, cols, b, rows, y, Min(k1 + 1, rows - y), j)
  {
    forall j | 0 <= j < |l1|
      ensures l2[j] == InsertedSlot(l0, cols, b, rows, y, Min(k1 + 1, rows - y), j)
    {
      if b + y + 1 <= j < b + rows {
        assert l1[j - 1] == InsertedSlot(l0, cols, b, rows, y, k1, j - 1);
      }
    }
  }

  /** Any run of `OpenRow` turns from column 0 on a flat ring, `T(i)` being
      the edit after `i` turns: after `n` turns `Min(n, rows - y)` blank rows
      went in at the cursor row. */
  lemma {:induction false} OpenRowRun(T: nat -> Edit, n: nat, r: Ring, cols: nat, rows: nat, y: int)
    requires Flat(r, rows) && |r.lines| == r.height && 0 <= y < rows && cols >= 1
    requires T(0) == Edit(r.lines, true)
    requires forall i :: 0 <= i < n ==>
      T(i + 1) == if T(i).done then OpenRow(Ring(T(i).lines, r.height, r.base), cols, rows, rows - 1, 0, y) else T(i)
    ensures T(n).done && |T(n).lines| == r.height
    ensures forall j :: 0 <= j < r.height ==> T(n).lines[j] == InsertedSlot(r.lines, cols, r.base, rows, y, Min(n, rows - y), j)
  {
    if n == 0 {
      forall j | 0 <= j < r.height
        ensures r.lines[j] == InsertedSlot(r.lines, cols, r.base, rows, y, 0, j)
      {
      }
    } else {
      OpenRowRun(T, n - 1, r, cols, rows, y);
      var p := T(n - 1);
      OpenRowSlots(Ring(p.lines, r.height, r.base), cols, rows, y);
      assert T(n) == OpenRow(Ring(p.lines, r.height, r.base), cols, rows, rows - 1, 0, y);
      InsertedCompose(r.lines, p.lines, T(n).lines, cols, r.base, rows, y, Min(n - 1, rows - y));
    }
  }

  /** `insertLines(n)` in the default region: `Min(n, rows - y)` blank rows
      go in at the cursor row and as many rows fall off the bottom. */
  lemma InsertLinesFlat(r: Ring, n: nat, cols: nat, rows: nat, total: int, y: int)
    requires Tidy(r, cols, rows, total) && Flat(r, rows) && 0 <= y < rows && cols >= 1
    ensures var e := InsertLines(r, n, cols, rows, rows - 1, y);
      var s := LiveScreen(r, rows);
      var k := Min(n, rows - y);
      && e.done
      && Tidy(r.(lines := e.lines), cols, rows, total)
      && LiveScreen(r.(lines := e.lines), rows) == s[..y] + BlankRows(cols, k) + s[y..rows - k]
  {
    InsertLinesSlots(r, n, cols, rows, y);
    var e := InsertLines(r, n, cols, rows, rows - 1, y);
    InsertedTidy(r, e.lines, cols, rows, total, y, Min(n, rows - y));
    InsertedLive(r, rows, e.lines, cols, y, Min(n, rows - y));
  }

  /** `insertLines` on a flat screen, slot by slot. */
  lemma InsertLinesSlots(r: Ring, n: nat, cols: nat, rows: nat, y: int)
    requires Flat(r, rows) && |r.lines| == r.height && 0 <= y < rows && cols >= 1
    ensures var e := InsertLines(r, n, cols, rows, rows - 1, y);
      && e.done && |e.lines| == r.height
      && forall j :: 0 <= j < r.height ==> e.lines[j] == InsertedSlot(r.lines, cols, r.base, rows, y, Min(n, rows - y), j)
  {
    var T := (i: nat) => InsertLines(r, i, cols, rows, rows - 1, y);
    OpenRowRun(T, n, r, cols, rows, y);
  }

  /** The table after one intended turn of `deleteLines` on a flat screen. */
  lemma CloseRowShape(r: Ring, cols: nat, rows: nat, y: int)
    requires Flat(r, rows) && |r.lines| == r.height && 0 <= y < rows
    ensures var e := CloseRow(r, cols, rows, rows - 1, y);
      var b := r.base;
      && e.done && |e.lines| == r.height
      && e.lines[b + rows - 1] == BlankRow(cols)
      && (forall i :: 0 <= i < r.height && (i < b + y || i >= b + rows) ==> e.lines[i] == r.lines[i])
      && (forall i :: b + y <= i < b + rows - 1 ==> e.lines[i] == r.lines[i + 1])
  {
    var b := r.base;
    assert RegionEnd(b, rows, rows - 1) + 1 == b + rows;
    RotateUp(r.lines, b + y, b + rows, BlankRow(cols));
  }

  /** Table slot `j` after `k` rows went from screen row `y` of a flat ring
      based at `b` and as many blank rows came in at the bottom, read off
      the table `l` from before: the slots off the screen keep their
      entries. */
  function DeletedSlot(l: seq<Entry>, cols: nat, b: int, rows: int, y: int, k: int, j: int): Entry {
    if j < b + y || j >= b + rows then EntryAt(l, j)
    else if j < b + rows - k then EntryAt(l, j + k)
    else BlankRow(cols)
  }

  /** Slot by slot `DeletedSlot` on a flat ring is, on the live screen, the
      `k` rows from row `y` on gone and as many blank rows at the bottom. */
  lemma DeletedLive(r: Ring, rows: nat, l: seq<Entry>, cols: nat, y: int, k: int)
    requires Flat(r, rows) && |r.lines| == r.height && |l| == r.height && 0 <= y < rows && 0 <= k <= rows - y
    requires forall j :: 0 <= j < r.height ==> l[j] == DeletedSlot(r.lines, cols, r.base, rows, y, k, j)
    ensures var s := LiveScreen(r, rows);
      LiveScreen(r.(lines := l), rows) == s[..y] + s[y + k..] + BlankRows(cols, k)
  {
    var s := LiveScreen(r, rows);
    var b := r.base;
    var t := s[..y] + s[y + k..] + BlankRows(cols, k);
    forall i | 0 <= i < rows
      ensures l[b + i] == t[i]
    {
      ThreeAt(s[..y], s[y + k..], BlankRows(cols, k), i);
      assert l[b + i] == DeletedSlot(r.lines, cols, b, rows, y, k, b + i);
      if i < y {
        FlatLive(r, rows, i);
      } else if i < rows - k {
        FlatLive(r, rows, i + k);
      }
    }
    LiveOfFlat(r, rows, l, t);
  }

  /** Rows out at `y` and blank rows in at the bottom keep every slot of a
      tidy ring a full row. */
  lemma DeletedTidy(r: Ring, l: seq<Entry>, cols: nat, rows: nat, total: int, y: int, k: int)
    requires Tidy(r, cols, rows, total) && Flat(r, rows) && |l| == r.height && 0 <= y < rows && 0 <= k
    requires forall j :: 0 <= j < r.height ==> l[j] == DeletedSlot(r.lines, cols, r.base, rows, y, k, j)
    ensures Tidy(r.(lines := l), cols, rows, total)
  {
    forall j | 0 <= j < |l|
      ensures l[j].Row? && |l[j].cells| == cols
    {
      assert l[j] == DeletedSlot(r.lines, cols, r.base, rows, y, k, j);
    }
  }

  /** One intended `deleteLines` turn on a flat ring takes the cursor row
      out and brings one blank row in at the bottom. */
  lemma CloseRowSlots(r: Ring, cols: nat, rows: nat, y: int)
    requires Flat(r, rows) && |r.lines| == r.height && 0 <= y < rows
    ensures var t := CloseRow(r, cols, rows, rows - 1, y);
      && t.done && |t.lines| == r.height
      && forall j :: 0 <= j < r.height ==> t.lines[j] == DeletedSlot(r.lines, cols, r.base, rows, y, 1, j)
  {
    CloseRowShape(r, cols, rows, y);
  }

  /** `k1` rows out at `y`, then one more: `k1 + 1` rows out, at most as
      many as there are from `y` down. */
  lemma DeletedCompose(l0: seq<Entry>, l1: seq<Entry>, l2: seq<Entry>, cols: nat, b: int, rows: int, y: int, k1: int)
    requires 0 <= b && b + rows <= |l1| == |l2| && 0 <= y < rows && 0 <= k1 <= rows - y
    requires forall j :: 0 <= j < |l1| ==> l1[j] == DeletedSlot(l0, cols, b, rows, y, k1, j)
    requires forall j :: 0 <= j < |l1| ==> l2[j] == DeletedSlot(l1, cols, b, rows, y, 1, j)
    ensures forall j :: 0 <= j < |l1| ==> l2[j] == DeletedSlot(l0, cols, b, rows, y, Min(k1 + 1, rows - y), j)
  {
    forall j | 0 <= j < |l1|
      ensures l2[j] == DeletedSlot(l0, cols, b, rows, y, Min(k1 + 1, rows - y), j)
    {
      if b + y <= j < b + rows - 1 {
        assert l1[j + 1] == DeletedSlot(l0, cols, b, rows, y, k1, j + 1);
      }
    }
  }

  /** Any run of intended `deleteLines` turns on a flat ring, `T(i)` being
      the edit after `i` turns: after `n` turns `Min(n, rows - y)` rows went
      from the cursor row on and as many blank rows came in at the bottom. */
  lemma {:induction false} CloseRowRun(T: nat -> Edit, n: nat, r: Ring, cols: nat, rows: nat, y: int)
    requires Flat(r, rows) && |r.lines| == r.height && 0 <= y < rows
    requires T(0) == Edit(r.lines, true)
    requires forall i :: 0 <= i < n ==>
      T(i + 1) == CloseRow(Ring(T(i).lines, r.height, r.base), cols, rows, rows - 1, y)
    ensures T(n).done && |T(n).lines| == r.height
    ensures forall j :: 0 <= j < r.height ==> T(n).lines[j] == DeletedSlot(r.lines, cols, r.base, rows, y, Min(n, rows - y), j)
  {
    if n == 0 {
      forall j | 0 <= j < r.height
        ensures r.lines[j] == DeletedSlot(r.lines, cols, r.base, rows, y, 0, j)
      {
      }
    } else {
      CloseRowRun(T, n - 1, r, cols, rows, y);
      var p := T(n - 1);
      CloseRowSlots(Ring(p.lines, r.height, r.base), cols, rows, y);
      assert T(n) == CloseRow(Ring(p.lines, r.height, r.base), cols, rows, rows - 1, y);
      DeletedCompose(r.lines, p.lines, T(n).lines, cols, r.base, rows, y, Min(n - 1, rows - y));
    }
  }

  /** `deleteLines(n)` as intended, in the default region: `Min(n, rows - y)`
      rows go from the cursor row and as many blank rows enter at the
      bottom. */
  lemma DeleteLinesFlat(r: Ring, n: nat, cols: nat, rows: nat, total: int, y: int)
    requires Tidy(r, cols, rows, total) && Flat(r, rows) && 0 <= y < rows
    ensures var e := DeleteLines(r, n, cols, rows, rows - 1, y);
      var s := LiveScreen(r, rows);
      var k := Min(n, rows - y);
      && e.done
      && Tidy(r.(lines := e.lines), cols, rows, total)
      && LiveScreen(r.(lines := e.lines), rows) == s[..y] + s[y + k..] + BlankRows(cols, k)
  {
    DeleteLinesSlots(r, n, cols, rows, y);
    var e := DeleteLines(r, n, cols, rows, rows - 1, y);
    DeletedTidy(r, e.lines, cols, rows, total, y, Min(n, rows - y));
    DeletedLive(r, rows, e.lines, cols, y, Min(n, rows - y));
  }

  /** `deleteLines` on a flat screen, slot by slot. */
  lemma DeleteLinesSlots(r: Ring, n: nat, cols: nat, rows: nat, y: int)
    requires Flat(r, rows) && |r.lines| == r.height && 0 <= y < rows
    ensures var e := DeleteLines(r, n, cols, rows, rows - 1, y);
      && e.done && |e.lines| == r.height
      && forall j :: 0 <= j < r.height ==> e.lines[j] == DeletedSlot(r.lines, cols, r.base, rows, y, Min(n, rows - y), j)
  {
    var T := (i: nat) => DeleteLines(r, i, cols, rows, rows - 1, y);
    CloseRowRun(T, n, r, cols, rows, y);
  }

  /** The erase inside one `deleteLines` turn as written, on a flat screen
      whose bottom row is a full row: it blanks the bottom screen row, not
      the empty array just put in below it. */
  lemma CloseRowAsWrittenErase(r: Ring, cols: nat, rows: nat, y: int)
    requires Flat(r, rows) && |r.lines| == r.height && 0 <= y < rows && cols >= 1
    requires r.lines[r.base + rows - 1].Row? && |r.lines[r.base + rows - 1].cells| == cols
    ensures var b := r.base;
      var l1 := Splice(r.lines, RegionEnd(b, rows, rows - 1) + 1, 0, [Row([])]);
      EraseLine(Ring(l1, r.height, b), cols, 0, RegionEnd(b, rows, rows - 1) - b)
        == Some(Splice(r.lines, b + rows, 0, [Row([])])[b + rows - 1 := BlankRow(cols)])
  {
    var b, h := r.base, r.height;
    var j := RegionEnd(b, rows, rows - 1);
    assert j == b + rows - 1;
    var l1 := Splice(r.lines, j + 1, 0, [Row([])]);
    SpliceParts(r.lines, j + 1, 0, [Row([])]);
    assert l1[..b + rows] == r.lines[..b + rows];
    assert Phys(Ring(l1, h, b), j - b) == b + rows - 1;
    var c := r.lines[b + rows - 1].cells;
    assert l1[b + rows - 1] == Row(c);
    FillFromTidy(c, 0, cols);
    assert c[..0] + Blanks(cols) == Blanks(cols);
  }

  /** The table after one turn of `deleteLines` as written, on a flat
      screen whose bottom row is a full row, as two splices: the bottom
      screen row blanked, the empty array in below it, and the cursor's
      entry taken out. */
  lemma CloseRowAsWrittenTable(r: Ring, cols: nat, rows: nat, y: int)
    requires Flat(r, rows) && |r.lines| == r.height && 0 <= y < rows && cols >= 1
    requires r.lines[r.base + rows - 1].Row? && |r.lines[r.base + rows - 1].cells| == cols
    ensures var b := r.base;
      CloseRowAsWritten(r, cols, rows, rows - 1, y)
        == Edit(Splice(Splice(r.lines[b + rows - 1 := BlankRow(cols)], b + rows, 0, [Row([])]), b + y, 1, []), true)
  {
    var b := r.base;
    var j := RegionEnd(b, rows, rows - 1);
    assert j == b + rows - 1;
    var l2 := Splice(r.lines, b + rows, 0, [Row([])])[b + rows - 1 := BlankRow(cols)];
    CloseRowAsWrittenErase(r, cols, rows, y);
    SpliceTurnOf(r, cols, j + 1, 0, j - b, y + b, l2);
    SetBeforeInsert(r.lines, b + rows - 1, b + rows, Row([]), BlankRow(cols));
  }

  /** The table after one turn of `deleteLines` as written, on a flat
      screen whose bottom row is a full row: the rows below the cursor move
      up by one over a table whose bottom screen row was already blanked,
      and the empty array ends up in the bottom screen row. */
  lemma CloseRowAsWrittenShape(r: Ring, cols: nat, rows: nat, y: int)
    requires Flat(r, rows) && |r.lines| == r.height && 0 <= y < rows && cols >= 1
    requires r.lines[r.base + rows - 1].Row? && |r.lines[r.base + rows - 1].cells| == cols
    ensures var e := CloseRowAsWritten(r, cols, rows, rows - 1, y);
      var b := r.base;
      var l := r.lines[b + rows - 1 := BlankRow(cols)];
      && e.done && |e.lines| == r.height
      && e.lines[b + rows - 1] == Row([])
      && (forall i :: 0 <= i < r.height && i < b + y ==> e.lines[i] == l[i])
      && (forall i :: b + y <= i < b + rows - 1 ==> e.lines[i] == l[i + 1])
  {
    var b := r.base;
    CloseRowAsWrittenTable(r, cols, rows, y);
    RotateUp(r.lines[b + rows - 1 := BlankRow(cols)], b + y, b + rows, Row([]));
  }

  /** One turn of `deleteLines` as the source writes it erases the old bottom
      row before the shift: below the cursor the rows move up, the row that
      was last is lost to blanks one row above the bottom, and the bottom
      row is the empty array put in below the region. */
  lemma CloseRowAsWrittenFlat(r: Ring, cols: nat, rows: nat, y: int)
    requires Flat(r, rows) && |r.lines| == r.height && 0 <= y < rows && cols >= 1
    requires r.lines[r.base + rows - 1].Row? && |r.lines[r.base + rows - 1].cells| == cols
    ensures var e := CloseRowAsWritten(r, cols, rows, rows - 1, y);
      var s := LiveScreen(r, rows);
      && e.done
      && |e.lines| == |r.lines|
      && (y < rows - 1 ==>
            LiveScreen(r.(lines := e.lines), rows) == s[..y] + s[y + 1..rows - 1] + [BlankRow(cols), Row([])])
      && (y == rows - 1 ==> LiveScreen(r.(lines := e.lines), rows) == s[..y] + [Row([])])
  {
    var b := r.base;
    CloseRowAsWrittenShape(r, cols, rows, y);
    var e := CloseRowAsWritten(r, cols, rows, rows - 1, y);
    var s := LiveScreen(r, rows);
    var r' := r.(lines := r.lines[b + rows - 1 := BlankRow(cols)]);
    BlankedBottomLive(r, cols, rows);
    ShiftedUpLive(r', rows, e.lines, y, Row([]));
    assert r'.(lines := e.lines) == r.(lines := e.lines);
    var s' := s[..rows - 1] + [BlankRow(cols)];
    if y < rows - 1 {
      assert s'[y + 1..] == s[y + 1..rows - 1] + [BlankRow(cols)];
    }
  }

  /** Blanking the bottom screen row of a flat screen blanks the last live row. */
  lemma BlankedBottomLive(r: Ring, cols: nat, rows: nat)
    requires Flat(r, rows) && |r.lines| == r.height && 1 <= rows
    ensures var s := LiveScreen(r, rows);
      LiveScreen(r.(lines := r.lines[r.base + rows - 1 := BlankRow(cols)]), rows) == s[..rows - 1] + [BlankRow(cols)]
  {
    var r' := r.(lines := r.lines[r.base + rows - 1 := BlankRow(cols)]);
    LiveIsSlice(r, rows);
    LiveIsSlice(r', rows);
    assert r'.lines[r.base..r.base + rows] == r.lines[r.base..r.base + rows - 1] + [BlankRow(cols)];
  }

  /** The discrepancy: after one `deleteLines` turn as written the bottom
      screen row is an array with no cells, where the intended turn leaves
      a row of `cols` blanks. */
  lemma DeleteLineBottomDiffers(r: Ring, cols: nat, rows: nat, total: int, y: int)
    requires Tidy(r, cols, rows, total) && Flat(r, rows) && 0 <= y < rows && cols >= 1
    ensures var w := CloseRowAsWritten(r, cols, rows, rows - 1, y);
      var c := CloseRow(r, cols, rows, rows - 1, y);
      && LiveScreen(r.(lines := w.lines), rows)[rows - 1] == Row([])
      && LiveScreen(r.(lines := c.lines), rows)[rows - 1] == BlankRow(cols)
      && Row([]) != BlankRow(cols)
  {
    CloseRowAsWrittenFlat(r, cols, rows, y);
    CloseRowShape(r, cols, rows, y);
    FlatLive(r.(lines := CloseRow(r, cols, rows, rows - 1, y).lines), rows, rows - 1);
    assert |Blanks(cols)| == cols;
  }

  /** On a full ring whose live screen wraps round the end of the table, a
      turn of `insertLines` (and ESC M at the top of the region) puts the
      empty array in at the unwrapped index `y + ybase` but takes out an
      entry past the table's end, so nothing leaves: the turn completes
      and the table grows by one.  Here a ring of three rows, two on
      screen, starting at slot 2. */
  lemma WrappedOpenRowGrows()
    ensures var r := Ring([BlankRow(1), BlankRow(1), BlankRow(1)], 3, 2);
      && Tidy(r, 1, 2, 3)
      && var il := InsertLines(r, 1, 1, 2, 1, 1);
      && il.done && |il.lines| == 4 && !Tidy(r.(lines := il.lines), 1, 2, 3)
      && var ri := OpenRow(r, 1, 2, 1, 0, 0);
      && ri.done && |ri.lines| == 4 && !Tidy(r.(lines := ri.lines), 1, 2, 3)
  {
    var r := Ring([BlankRow(1), BlankRow(1), BlankRow(1)], 3, 2);
    assert |Blanks(1)| == 1;
    var il := OpenRow(r, 1, 2, 1, 0, 1);
    assert InsertLines(r, 1, 1, 2, 1, 1) == il;
  }
}
