/** Decimal numerals as UTF-16 code units: how JavaScript writes a
    non-negative integer into a string (`'' + n`), and how the CSI parser
    reads digits back (`currentParam = currentParam * 10 + ch - 48`). */
module Decimal {
  import opened Cells

  predicate IsDigit(c: CodeUnit) { 48 <= c <= 57 }

  /** The code unit of the decimal digit `d`. */
  function Digit(d: int): (c: CodeUnit)
    requires 0 <= d < 10
    ensures IsDigit(c) && c as int - 48 == d
  {
    (48 + d) as bv16
  }

  /** `n` in decimal, most significant digit first, without leading zeros. */
  function Show(n: nat): (r: seq<CodeUnit>)
    ensures |r| >= 1
    ensures forall k :: 0 <= k < |r| ==> IsDigit(r[k])
    ensures n > 0 ==> r[0] != 48
    decreases n
  {
    if n < 10 then [Digit(n)] else Show(n / 10) + [Digit(n % 10)]
  }

  /** The value the CSI parser has accumulated after reading the code units
      `s` one by one, starting from `acc`. */
  function Accum(acc: int, s: seq<CodeUnit>): int
    decreases |s|
  {
    if s == [] then acc else Accum(acc * 10 + s[0] as int - 48, s[1..])
  }

  /** Reading two runs of digits one after the other. */
  lemma {:induction false} AccumAppend(acc: int, a: seq<CodeUnit>, b: seq<CodeUnit>)
    ensures Accum(acc, a + b) == Accum(Accum(acc, a), b)
    decreases |a|
  {
    if a == [] {
      assert a + b == b;
    } else {
      assert (a + b)[1..] == a[1..] + b;
      AccumAppend(acc * 10 + a[0] as int - 48, a[1..], b);
    }
  }

  /** Reading back what `Show` wrote, from a parameter of 0, gives the
      number: the decimal round trip of the cursor position report. */
  lemma {:induction false} AccumShow(n: nat)
    ensures Accum(0, Show(n)) == n
    decreases n
  {
    if n >= 10 {
      AccumShow(n / 10);
      AccumAppend(0, Show(n / 10), [Digit(n % 10)]);
      assert [Digit(n % 10)][1..] == [];
    }
  }

  /** Different numbers are written differently. */
  lemma ShowInjective(m: nat, n: nat)
    requires Show(m) == Show(n)
    ensures m == n
  {
    AccumShow(m);
    AccumShow(n);
  }
}
