/** Index arithmetic of the circular line table.

    `lines` holds `currentHeight` rows used as a ring: `ybase` is the table
    index of the live screen's top row and `ydisp` the index of the row the
    viewport shows at its top.  The source never uses `%`: it adds and, when
    the sum has reached the height, subtracts the height once.  The lemmas
    here show that this is reduction modulo the height whenever the sum is
    below twice the height, and give the closed form of the stepping loops
    of `scrollDisp`. */
module Viewport {

  /** `row = a + b; if (row >= h) row -= h;` */
  function WrapOnce(a: int, b: int, h: int): int {
    if a + b >= h then a + b - h else a + b
  }

  /** One subtraction is reduction modulo the height for sums in [0, 2h). */
  lemma WrapOnceIsMod(a: int, b: int, h: int)
    requires 0 < h && 0 <= a + b < 2 * h
    ensures WrapOnce(a, b, h) == (a + b) % h
  {
    if a + b >= h {
      assert a + b == 1 * h + (a + b - h);
    }
  }

  /** `if (++ybase === currentHeight) ybase = 0;` */
  function NextBase(ybase: int, h: int): int {
    if ybase + 1 == h then 0 else ybase + 1
  }

  /** `ydisp` after the forward loop of `scrollDisp`: each turn stops at
      `ybase`, otherwise steps one row down the ring. */
  function Forward(d: int, base: int, h: int, k: nat): int
    decreases k
  {
    if k == 0 || d == base then d
    else Forward(if d + 1 == h then 0 else d + 1, base, h, k - 1)
  }

  /** `ydisp` after the backward loop: each turn stops at `stop`, otherwise
      steps one row up the ring. */
  function Backward(d: int, stop: int, h: int, k: nat): int
    decreases k
  {
    if k == 0 || d == stop then d
    else Backward(if d - 1 < 0 then h - 1 else d - 1, stop, h, k - 1)
  }

  /** How many single steps down the ring lead from `from` to `to`. */
  function RingDist(from: int, to: int, h: int): int {
    if to >= from then to - from else to - from + h
  }

  /** That distance is the difference modulo the height. */
  lemma RingDistIsMod(from: int, to: int, h: int)
    requires 0 <= from < h && 0 <= to < h
    ensures RingDist(from, to, h) == (to - from) % h
  {
    if to < from {
      assert to - from == -1 * h + (to - from + h);
    }
  }

  /** Moving forward `k` rows lands on `ybase` when it is at most `k` rows
      ahead and `k` rows further round the ring otherwise, so it never
      passes the live screen. */
  lemma {:induction false} ForwardClosedForm(d: int, base: int, h: int, k: nat)
    requires 0 <= d < h && 0 <= base < h
    ensures Forward(d, base, h, k) ==
      if RingDist(d, base, h) <= k then base else WrapOnce(d, k, h)
    decreases k
  {
    if k > 0 && d != base {
      var d' := if d + 1 == h then 0 else d + 1;
      ForwardClosedForm(d', base, h, k - 1);
    }
  }

  /** Moving backward `k` rows lands on `stop` when it is at most `k` rows
      behind and `k` rows back round the ring otherwise. */
  lemma {:induction false} BackwardClosedForm(d: int, stop: int, h: int, k: nat)
    requires 0 <= d < h && 0 <= stop < h
    ensures Backward(d, stop, h, k) ==
      if RingDist(stop, d, h) <= k then stop else (if d - k < 0 then d - k + h else d - k)
    decreases k
  {
    if k > 0 && d != stop {
      var d' := if d - 1 < 0 then h - 1 else d - 1;
      BackwardClosedForm(d', stop, h, k - 1);
    }
  }

  /** Both loops keep the viewport inside the ring. */
  lemma {:induction false} StepsStayInRing(d: int, target: int, h: int, k: nat)
    requires 0 <= d < h
    ensures 0 <= Forward(d, target, h, k) < h
    ensures 0 <= Backward(d, target, h, k) < h
    decreases k
  {
    if k > 0 {
      StepsStayInRing(if d + 1 == h then 0 else d + 1, target, h, k - 1);
      StepsStayInRing(if d - 1 < 0 then h - 1 else d - 1, target, h, k - 1);
    }
  }

  /** `ydisp` can also be -1; from there both loops still stay inside
      [-1, h). */
  lemma StepsKeepRange(d: int, target: int, h: int, k: nat)
    requires -1 <= d < h && 1 <= h
    ensures -1 <= Forward(d, target, h, k) < h
    ensures -1 <= Backward(d, target, h, k) < h
  {
    if k > 0 && d != target {
      StepsStayInRing(if d + 1 == h then 0 else d + 1, target, h, k - 1);
      StepsStayInRing(if d - 1 < 0 then h - 1 else d - 1, target, h, k - 1);
    }
  }
}
