/** Select Graphic Rendition (SGR, section 8.3.117 of ECMA-48), the part of
    it this terminal honours: 0 (default), 1 (bold), 4 (underline), 30-37
    (foreground colour) and 40-47 (background colour).  Every other code
    leaves the attribute as it is. */
module Sgr {
  import opened Cells

  /** Foreground colour index, bits 3-5. */
  function Fg(a: bv16): bv16 { (a >> 3) & 7 }

  /** Background colour index, bits 0-2. */
  function Bg(a: bv16): bv16 { a & 7 }

  const FgBits: bv16 := 0x38
  const BgBits: bv16 := 0x07
  const BoldBit: bv16 := 0x100
  const UnderlineBit: bv16 := 0x400

  /** `(a & ~(7 << 3)) | (k << 3)`: replace the foreground field. */
  function SetFg(a: Attr, k: bv16): (r: Attr)
    requires k < 8
    ensures Fg(r) == k && r & !FgBits == a & !FgBits
  {
    (a & !(7 << 3)) | (k << 3)
  }

  /** `(a & ~7) | k`: replace the background field. */
  function SetBg(a: Attr, k: bv16): (r: Attr)
    requires k < 8
    ensures Bg(r) == k && r & !BgBits == a & !BgBits
  {
    (a & !7) | k
  }

  /** `a | m` for the bold or the underline bit. */
  function SetFlag(a: Attr, m: bv16): (r: Attr)
    requires m == BoldBit || m == UnderlineBit
    ensures r & m == m && r & !m == a & !m
  {
    a | m
  }

  /** A code's distance from 30 or 40 as a three-bit colour index. */
  function ColourIndex(k: int): (r: bv16)
    requires 0 <= k < 8
    ensures r < 8 && r as int == k
  {
    k as bv16
  }

  /** Which field of the attribute a single SGR code writes. */
  datatype Field = Reset | Foreground | Background | Bold | Underline | NoField

  function FieldOf(p: int): Field {
    if 30 <= p <= 37 then Foreground
    else if 40 <= p <= 47 then Background
    else if p == 0 then Reset
    else if p == 1 then Bold
    else if p == 4 then Underline
    else NoField
  }

  /** One SGR code applied to the current attribute (one turn of the
      parameter loop of `charAttributes`). */
  function ApplyCode(a: Attr, p: int): Attr {
    if 30 <= p <= 37 then SetFg(a, ColourIndex(p - 30))
    else if 40 <= p <= 47 then SetBg(a, ColourIndex(p - 40))
    else if p == 0 then DefAttr
    else if p == 1 then SetFlag(a, BoldBit)
    else if p == 4 then SetFlag(a, UnderlineBit)
    else a
  }

  /** A foreground code 30-37 replaces exactly bits 3-5 by `p - 30`. */
  lemma ForegroundCode(a: Attr, p: int)
    requires 30 <= p <= 37
    ensures Fg(ApplyCode(a, p)) == ColourIndex(p - 30)
    ensures ApplyCode(a, p) & !FgBits == a & !FgBits
  {
    var k := ColourIndex(p - 30);
    assert ApplyCode(a, p) == SetFg(a, k);
  }

  /** A background code 40-47 replaces exactly bits 0-2 by `p - 40`. */
  lemma BackgroundCode(a: Attr, p: int)
    requires 40 <= p <= 47
    ensures Bg(ApplyCode(a, p)) == ColourIndex(p - 40)
    ensures ApplyCode(a, p) & !BgBits == a & !BgBits
  {
    var k := ColourIndex(p - 40);
    assert ApplyCode(a, p) == SetBg(a, k);
  }

  /** Code 1 sets exactly bit 8 and code 4 exactly bit 10. */
  lemma FlagCodes(a: Attr)
    ensures ApplyCode(a, 1) & BoldBit != 0 && ApplyCode(a, 1) & !BoldBit == a & !BoldBit
    ensures ApplyCode(a, 4) & UnderlineBit != 0 && ApplyCode(a, 4) & !UnderlineBit == a & !UnderlineBit
  {
    assert ApplyCode(a, 1) == SetFlag(a, BoldBit);
    assert ApplyCode(a, 4) == SetFlag(a, UnderlineBit);
  }

  /** The codes of a parameter list applied left to right. */
  function ApplyAll(a: Attr, ps: seq<int>): Attr
    decreases |ps|
  {
    if ps == [] then a else ApplyAll(ApplyCode(a, ps[0]), ps[1..])
  }

  /** `charAttributes`: an empty list resets, otherwise the codes are
      applied in order to the current attribute. */
  function CharAttributes(a: Attr, ps: seq<int>): Attr {
    if |ps| == 0 then DefAttr else ApplyAll(a, ps)
  }

  lemma SetFgTwice(a: Attr, k: bv16)
    requires k < 8
    ensures SetFg(SetFg(a, k), k) == SetFg(a, k)
  {
  }

  lemma SetBgTwice(a: Attr, k: bv16)
    requires k < 8
    ensures SetBg(SetBg(a, k), k) == SetBg(a, k)
  {
  }

  lemma SetFlagTwice(a: Attr, m: bv16)
    requires m == BoldBit || m == UnderlineBit
    ensures SetFlag(SetFlag(a, m), m) == SetFlag(a, m)
  {
  }

  /** A single code applied twice is the same as applied once. */
  lemma ApplyCodeIdempotent(a: Attr, p: int)
    ensures ApplyCode(ApplyCode(a, p), p) == ApplyCode(a, p)
  {
    match FieldOf(p)
    case Foreground => SetFgTwice(a, ColourIndex(p - 30));
    case Background => SetBgTwice(a, ColourIndex(p - 40));
    case Bold => SetFlagTwice(a, BoldBit);
    case Underline => SetFlagTwice(a, UnderlineBit);
    case Reset =>
    case NoField =>
  }

  lemma FgBgCommute(a: Attr, k: bv16, l: bv16)
    requires k < 8 && l < 8
    ensures SetBg(SetFg(a, k), l) == SetFg(SetBg(a, l), k)
  {
  }

  lemma FgFlagCommute(a: Attr, k: bv16, m: bv16)
    requires k < 8 && (m == BoldBit || m == UnderlineBit)
    ensures SetFlag(SetFg(a, k), m) == SetFg(SetFlag(a, m), k)
  {
  }

  lemma BgFlagCommute(a: Attr, k: bv16, m: bv16)
    requires k < 8 && (m == BoldBit || m == UnderlineBit)
    ensures SetFlag(SetBg(a, k), m) == SetBg(SetFlag(a, m), k)
  {
  }

  lemma FlagsCommute(a: Attr)
    ensures SetFlag(SetFlag(a, BoldBit), UnderlineBit) == SetFlag(SetFlag(a, UnderlineBit), BoldBit)
  {
  }

  /** The order in which the helper below takes two distinct fields. */
  function Rank(f: Field): int {
    match f
    case Foreground => 0
    case Background => 1
    case Bold => 2
    case Underline => 3
    case Reset => 4
    case NoField => 5
  }

  lemma OrderedCommute(a: Attr, p: int, q: int)
    requires Rank(FieldOf(p)) < Rank(FieldOf(q)) <= 3
    ensures ApplyCode(ApplyCode(a, p), q) == ApplyCode(ApplyCode(a, q), p)
  {
    match FieldOf(p)
    case Foreground =>
      var k := ColourIndex(p - 30);
      match FieldOf(q) {
        case Background => FgBgCommute(a, k, ColourIndex(q - 40));
        case Bold => FgFlagCommute(a, k, BoldBit);
        case Underline => FgFlagCommute(a, k, UnderlineBit);
        case _ =>
      }
    case Background =>
      var k := ColourIndex(p - 40);
      match FieldOf(q) {
        case Bold => BgFlagCommute(a, k, BoldBit);
        case Underline => BgFlagCommute(a, k, UnderlineBit);
        case _ =>
      }
    case Bold => FlagsCommute(a);
    case _ =>
  }

  /** Codes that write different fields commute, so the order of the
      parameters matters only where two of them write the same field. */
  lemma ApplyCodeCommutes(a: Attr, p: int, q: int)
    requires FieldOf(p) != FieldOf(q) && FieldOf(p) != Reset && FieldOf(q) != Reset
    ensures ApplyCode(ApplyCode(a, p), q) == ApplyCode(ApplyCode(a, q), p)
  {
    if FieldOf(p) == NoField || FieldOf(q) == NoField {
    } else if Rank(FieldOf(p)) < Rank(FieldOf(q)) {
      OrderedCommute(a, p, q);
    } else {
      OrderedCommute(a, q, p);
    }
  }

  /** Splitting the parameter list splits the fold. */
  lemma {:induction false} ApplyAllAppend(a: Attr, ps: seq<int>, qs: seq<int>)
    ensures ApplyAll(a, ps + qs) == ApplyAll(ApplyAll(a, ps), qs)
    decreases |ps|
  {
    if ps == [] {
      assert ps + qs == qs;
    } else {
      assert (ps + qs)[1..] == ps[1..] + qs;
      ApplyAllAppend(ApplyCode(a, ps[0]), ps[1..], qs);
    }
  }

  /** A 0 anywhere in the list wipes out everything before it: the result
      depends only on the codes after it. */
  lemma ResetForgetsPrefix(a: Attr, ps: seq<int>, qs: seq<int>)
    ensures ApplyAll(a, ps + [0] + qs) == ApplyAll(DefAttr, qs)
  {
    ApplyAllAppend(a, ps + [0], qs);
    ApplyAllAppend(a, ps, [0]);
  }

  /** Codes the terminal does not know leave the attribute unchanged,
      however many of them there are. */
  lemma {:induction false} UnknownCodesIgnored(a: Attr, ps: seq<int>)
    requires forall i :: 0 <= i < |ps| ==> FieldOf(ps[i]) == NoField
    ensures ApplyAll(a, ps) == a
    decreases |ps|
  {
    if ps != [] {
      UnknownCodesIgnored(ApplyCode(a, ps[0]), ps[1..]);
    }
  }

  /** The default attribute has foreground 7, background 0 and no flag. */
  lemma DefAttrFields()
    ensures Fg(DefAttr) == 7 && Bg(DefAttr) == 0
    ensures DefAttr & BoldBit == 0 && DefAttr & UnderlineBit == 0
  {
  }
}
