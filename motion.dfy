/** Cursor arithmetic of the CSI handlers: how a parameter becomes a
    count or a position, and how the result is clamped.  The parameters
    here are the non-negative integers the CSI parser produces. */
module Motion {

  /** `if (param < 1) param = 1;`: a count of 0 (an omitted parameter) means 1. */
  function AtLeast1(p: int): (r: int)
    ensures r >= 1 && (p >= 1 ==> r == p) && (p < 1 ==> r == 1)
  {
    if p < 1 then 1 else p
  }

  /** CUU and CPL (`p` rows up) and CUB (`p` columns left): the coordinate
      moves back by the count, stopping at 0. */
  function Back(v: int, p: int): (r: int)
    requires v >= 0
    ensures 0 <= r <= v
    ensures v >= AtLeast1(p) ==> r == v - AtLeast1(p)
    ensures v < AtLeast1(p) ==> r == 0
  {
    var w := v - AtLeast1(p);
    if w < 0 then 0 else w
  }

  /** CUD, CNL and VPR: `p` rows down, stopping at the last row. */
  function Down(y: int, p: int, rows: int): (r: int)
    ensures r > y || r == rows - 1
    ensures y + AtLeast1(p) < rows ==> r == y + AtLeast1(p)
    ensures y + AtLeast1(p) >= rows ==> r == rows - 1
  {
    var v := y + AtLeast1(p);
    if v >= rows then rows - 1 else v
  }

  /** CUF and HPR: `p` columns right, stopping at the last column (the test
      is `x >= cols - 1`, so reaching it exactly also lands there). */
  function Right(x: int, p: int, cols: int): (r: int)
    ensures r <= cols - 1
    ensures x + AtLeast1(p) < cols - 1 ==> r == x + AtLeast1(p)
    ensures x + AtLeast1(p) >= cols - 1 ==> r == cols - 1
  {
    var v := x + AtLeast1(p);
    if v >= cols - 1 then cols - 1 else v
  }

  /** One coordinate of CUP: the 1-based wire value, made 0-based and
      clamped into `[0, n - 1]`. */
  function Coordinate(p: int, n: int): (r: int)
    requires n >= 1
    ensures 0 <= r <= n - 1
    ensures 1 <= p <= n ==> r == p - 1
    ensures p < 1 ==> r == 0
    ensures p > n ==> r == n - 1
  {
    var v := p - 1;
    if v < 0 then 0 else if v >= n then n - 1 else v
  }

  /** CUP's column: the second parameter, or column 0 when there is none. */
  function CupColumn(params: seq<int>, cols: int): (r: int)
    requires cols >= 1
    ensures 0 <= r <= cols - 1
    ensures |params| < 2 ==> r == 0
    ensures |params| >= 2 ==> r == Coordinate(params[1], cols)
  {
    if |params| >= 2 then Coordinate(params[1], cols) else 0
  }

  /** CHA as written: the column becomes the raised parameter itself, with
      neither the 1-based adjustment nor a clamp. */
  function CharAbsolute(p: int): (r: int)
    ensures r >= 1 && (p >= 1 ==> r == p)
  {
    AtLeast1(p)
  }

  /** HPA and VPA: the raised parameter made 0-based, clamped only above. */
  function Absolute(p: int, n: int): (r: int)
    requires n >= 1
    ensures 0 <= r <= n - 1
    ensures AtLeast1(p) <= n ==> r == AtLeast1(p) - 1
    ensures AtLeast1(p) > n ==> r == n - 1
  {
    var v := AtLeast1(p) - 1;
    if v >= n then n - 1 else v
  }

  /** HVP's column as the source computes it: the second parameter, raised
      to 1 and made 0-based, and clamped above.  When there is no second
      parameter `this.params[1]` is `undefined`, `undefined - 1` is `NaN`
      and no comparison with `NaN` holds, so the column becomes `NaN`. */
  function HvpColumnAsWritten(params: seq<int>, cols: int): (r: Column)
    requires cols >= 1
    ensures |params| < 2 <==> r.NaN?
    ensures r.Num? ==> 0 <= r.n <= cols - 1
  {
    if |params| < 2 then NaN else Num(Absolute(params[1], cols))
  }

  /** HVP's column with an omitted second parameter read as 1, as the
      control function's default (ECMA-48 section 8.3.63) and CUP's
      handling of the same case say. */
  function HvpColumn(params: seq<int>, cols: int): (r: int)
    requires cols >= 1
    ensures 0 <= r <= cols - 1
    ensures |params| < 2 ==> r == 0
    ensures |params| >= 2 ==> r == Absolute(params[1], cols)
  {
    if |params| < 2 then 0 else Absolute(params[1], cols)
  }

  /** A JavaScript number that is either an integer or `NaN`. */
  datatype Column = Num(n: int) | NaN

  /** With one parameter the column HVP computes as written is not a
      number at all, while the corrected one is the row's first column. */
  lemma HvpOneParameter(p: int, cols: int)
    requires cols >= 1
    ensures HvpColumnAsWritten([p], cols) == NaN
    ensures HvpColumn([p], cols) == 0
  {
  }

  /** With two parameters both agree, and agree with CUP. */
  lemma HvpTwoParameters(params: seq<int>, cols: int)
    requires cols >= 1 && |params| >= 2 && params[1] >= 0
    ensures HvpColumnAsWritten(params, cols) == Num(HvpColumn(params, cols))
    ensures HvpColumn(params, cols) == CupColumn(params, cols)
  {
  }

  /** The horizontal tab: `(x + 8) & ~7`, the next multiple of 8, taken
      only when it does not pass `cols`.  There are no tab stops. */
  function TabStop(x: int, cols: int): (r: int)
    requires x >= 0
    ensures r == x || (r > x && r % 8 == 0 && r - x <= 8 && r <= cols)
    ensures (x + 8) - (x + 8) % 8 <= cols ==> r == (x + 8) - (x + 8) % 8
  {
    var param := (x + 8) - (x + 8) % 8;
    if param <= cols then param else x
  }

  /** DECSTBM: `(p0 || 1) - 1` and `(p1 || rows) - 1`, neither clamped nor
      checked against the other. */
  function RegionTop(params: seq<int>): (r: int)
    requires |params| >= 1
    ensures params[0] == 0 ==> r == 0
    ensures params[0] != 0 ==> r == params[0] - 1
  {
    (if params[0] == 0 then 1 else params[0]) - 1
  }

  function RegionBottom(params: seq<int>, rows: int): (r: int)
    ensures (|params| < 2 || params[1] == 0) ==> r == rows - 1
    ensures |params| >= 2 && params[1] != 0 ==> r == params[1] - 1
  {
    (if |params| < 2 || params[1] == 0 then rows else params[1]) - 1
  }

  /** SU: `scrollDisp(-params[0] || -1)`; `-0` is falsy too. */
  function ScrollUpBy(p: int): (r: int)
    ensures p == 0 ==> r == -1
    ensures p != 0 ==> r == -p
  {
    if p == 0 then -1 else -p
  }

  /** SD: `scrollDisp(params[0] || 1)`. */
  function ScrollDownBy(p: int): (r: int)
    ensures p == 0 ==> r == 1
    ensures p != 0 ==> r == p
  {
    if p == 0 then 1 else p
  }

  /** CBT: `(params[0] || 1) * 8` columns, at least one tab's worth. */
  function TabCount(p: int): (r: int)
    ensures r >= 8 && r % 8 == 0
    ensures p > 0 ==> r == 8 * p
    ensures p == 0 ==> r == 8
    requires p >= 0
  {
    (if p == 0 then 1 else p) * 8
  }

  /** After CUP with an in-range row `r` and column `c`, the 1-based
      position the cursor report writes is `r ; c` again. */
  lemma CupReportsItself(r: int, c: int, rows: int, cols: int)
    requires 1 <= r <= rows && 1 <= c <= cols
    ensures Coordinate(r, rows) + 1 == r
    ensures CupColumn([r, c], cols) + 1 == c
  {
  }
}
