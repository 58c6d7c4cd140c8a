/** Cells and display attributes of the terminal grid.

    A cell is one 32-bit word holding a UTF-16 code unit in its low 16 bits
    and a display attribute above them: `ch | attr << 16`.  The attribute
    word keeps the background colour index in bits 0-2, the foreground index
    in bits 3-5, bold in bit 8 and underline in bit 10, so every attribute
    the terminal can build fits in 11 bits and every cell stays below 2^31,
    where JavaScript's signed 32-bit bitwise operators agree with these
    unsigned ones. */
module Cells {

  /** A UTF-16 code unit, as `charCodeAt` returns it. */
  type CodeUnit = bv16

  /** An attribute word: the eleven bits the SGR handler can set. */
  type Attr = a: bv16 | a <= 0x7FF

  /** A packed cell. */
  type Cell = bv32

  /** Foreground white (7) on background black (0): `7 << 3`. */
  const DefAttr: Attr := 7 << 3

  /** The packed cell value `(ch & 0xffff) | (attr << 16)`. */
  function Pack(ch: CodeUnit, attr: Attr): (c: Cell)
    ensures c < 0x8000_0000
    ensures CharOf(c) == ch && AttrOf(c) == attr
  {
    (ch as bv32 & 0xffff) | ((attr as bv32) << 16)
  }

  /** `c & 0xffff`, the character half the renderer reads back. */
  function CharOf(c: Cell): CodeUnit { (c & 0xffff) as bv16 }

  /** `c >> 16`, the attribute half the renderer reads back. */
  function AttrOf(c: Cell): bv16 { (c >> 16) as bv16 }

  /** The blank cell `32 | (defAttr << 16)` that erasing writes. */
  const Blank: Cell := Pack(32, DefAttr)

  /** A cell that was never written (a hole in a JavaScript array).  Every
      bitwise operator maps `undefined` to 0, so the renderer sees a hole
      exactly as the number 0. */
  const Hole: Cell := 0

  /** Packing is injective: the cell determines the character and the
      attribute that produced it. */
  lemma PackInjective(c1: CodeUnit, a1: Attr, c2: CodeUnit, a2: Attr)
    requires Pack(c1, a1) == Pack(c2, a2)
    ensures c1 == c2 && a1 == a2
  {
    assert CharOf(Pack(c1, a1)) == c1 && CharOf(Pack(c2, a2)) == c2;
    assert AttrOf(Pack(c1, a1)) == a1 && AttrOf(Pack(c2, a2)) == a2;
  }
}
