/** The escape-sequence recogniser of `Term.prototype.write`: the four
    parser states, the CSI parameter accumulator, and which handler each
    input code unit triggers.

    The recogniser only ever looks at its own fields (`state`, `params`,
    `currentParam`, `prefix`, `postfix`), so it is stated here as a pure
    step function `Scan`; `After` says how the few handlers that touch those
    fields leave them.  `Terminal.Term.Write` runs exactly this on its own
    fields. */
module Parser {
  import opened Cells
  import opened Decimal

  datatype State = Normal | Escaped | Csi | Osc

  /** The recogniser's fields.  `prefix` and `postfix` hold the one-character
      strings the source stores, or nothing (`''`, and the initial
      `undefined`, which compares unequal to every character just as `''`
      does). */
  datatype Parser = Parser(state: State, params: seq<int>, currentParam: int,
                           prefix: seq<CodeUnit>, postfix: seq<CodeUnit>)

  /** What the terminal does with one code unit besides updating the
      recogniser: the handler that runs.  `Control(f)` is the dispatch on
      the final byte `f` of a control sequence. */
  datatype Action =
    | NoAction | Bell | LineFeed | CarriageReturn | Backspace | Tab | Print(ch: CodeUnit)
    | FullReset | NextLine | Index | ReverseIndex | SaveCursor | RestoreCursor
    | Control(final: CodeUnit)

  /** One turn of the loop: the new fields, the handler, and whether the
      following code unit is skipped (the `i++` after an OSC ended by ESC). */
  datatype Step = Step(parser: Parser, action: Action, skip: bool)

  /** The recogniser's initial fields. */
  const Initial := Parser(Normal, [], 0, [], [])

  // Character codes the recogniser compares against.
  const ESC: CodeUnit := 27
  const BEL: CodeUnit := 7
  const Semicolon: CodeUnit := 59

  predicate IsPostfix(c: CodeUnit) { c == 36 || c == 34 || c == 32 || c == 39 }

  /** The code unit `ch` arriving in the parser state `p`. */
  function Scan(p: Parser, ch: CodeUnit): (r: Step)
    // Only a final byte in CSI state dispatches, and by then the parameter
    // under construction has been appended: a handler always sees at least
    // one parameter.
    ensures r.action.Control? ==>
      && p.state == Csi && !IsDigit(ch) && ch != 63 && ch != 62 && ch != Semicolon
      && !IsPostfix(ch) && r.action.final == ch
      && r.parser == p.(state := Normal, params := p.params + [p.currentParam], currentParam := 0)
    // Only ESC, and nothing else, leaves the normal state.
    ensures p.state == Normal ==> (r.parser.state != Normal <==> ch == ESC)
    // A skip happens only when an OSC string is ended by ESC.
    ensures r.skip <==> p.state == Osc && ch == ESC
  {
    match p.state
    case Normal =>
      if ch == 0 then Step(p, NoAction, false)
      else if ch == BEL then Step(p, Bell, false)
      else if ch == 10 || ch == 11 || ch == 12 then Step(p, LineFeed, false)
      else if ch == 13 then Step(p, CarriageReturn, false)
      else if ch == 8 then Step(p, Backspace, false)
      else if ch == 9 then Step(p, Tab, false)
      else if ch == ESC then Step(p.(state := Escaped), NoAction, false)
      else if ch >= 32 then Step(p, Print(ch), false)
      else Step(p, NoAction, false)
    case Escaped =>
      if ch == 91 then Step(p.(params := [], currentParam := 0, state := Csi), NoAction, false)       // '['
      else if ch == 93 then Step(p.(params := [], currentParam := 0, state := Osc), NoAction, false)  // ']'
      else if ch == 80 || ch == 95 || ch == 94 then Step(p.(state := Osc), NoAction, false)          // 'P' '_' '^'
      // 'c', 'E', 'D' and 'M' leave the state to their handlers
      else if ch == 99 then Step(p, FullReset, false)
      else if ch == 69 then Step(p, NextLine, false)
      else if ch == 68 then Step(p, Index, false)
      else if ch == 77 then Step(p, ReverseIndex, false)
      else if ch == 55 then Step(p.(state := Normal), SaveCursor, false)                            // '7'
      else if ch == 56 then Step(p.(state := Normal), RestoreCursor, false)                         // '8'
      else Step(p.(state := Normal), NoAction, false)
    case Osc =>
      if ch != ESC && ch != BEL then Step(p, NoAction, false)
      else Step(p.(state := Normal), NoAction, ch == ESC)
    case Csi =>
      if ch == 63 || ch == 62 then Step(p.(prefix := [ch]), NoAction, false)
      else if IsDigit(ch) then Step(p.(currentParam := p.currentParam * 10 + ch as int - 48), NoAction, false)
      else
        var q := p.(params := p.params + [p.currentParam], currentParam := 0);
        if ch == Semicolon then Step(q, NoAction, false)
        else if IsPostfix(ch) then Step(q.(postfix := [ch]), NoAction, false)
        else Step(q.(state := Normal), Control(ch), false)
  }

  /** `HVPosition` raises a parameter below 1 to 1 in place; a missing
      second parameter is `undefined`, which is not below 1 and stays
      missing. */
  function HvpParams(ps: seq<int>): (r: seq<int>)
    ensures |r| == |ps|
    ensures forall k :: 0 <= k < |ps| ==> r[k] == if k < 2 && ps[k] < 1 then 1 else ps[k]
  {
    var a := if |ps| >= 1 && ps[0] < 1 then ps[0 := 1] else ps;
    if |a| >= 2 && a[1] < 1 then a[1 := 1] else a
  }

  /** The recogniser's fields once the handler of `a` has returned: the
      ESC handlers set the normal state, `setMode`/`resetMode` empty the
      parameter list by shifting it, HVP rewrites it, and every control
      sequence clears the prefix and the postfix after its handler. */
  function After(p: Parser, a: Action): Parser {
    match a
    case FullReset => p.(state := Normal)
    case NextLine => p.(state := Normal)
    case Index => p.(state := Normal)
    case ReverseIndex => p.(state := Normal)
    case Control(f) => p.(params := ControlParams(f, p.params), prefix := [], postfix := [])
    case _ => p
  }

  /** The parameter list once the handler of the final byte `f` has run. */
  function ControlParams(f: CodeUnit, ps: seq<int>): seq<int> {
    if f == 104 || f == 108 then [] else if f == 102 then HvpParams(ps) else ps
  }

  /** The recogniser's fields after a whole string, every handler returning
      normally. */
  function Run(p: Parser, s: seq<CodeUnit>): Parser
    decreases |s|
  {
    if s == [] then p
    else
      var st := Scan(p, s[0]);
      var q := After(st.parser, st.action);
      if st.skip then (if |s| >= 2 then Run(q, s[2..]) else q)
      else Run(q, s[1..])
  }

  /** The recogniser's fields stay in their ranges: at most one of `?`/`>`
      as prefix, at most one postfix character, non-negative parameters. */
  predicate Wellformed(p: Parser) {
    && |p.prefix| <= 1 && (|p.prefix| == 1 ==> p.prefix[0] == 63 || p.prefix[0] == 62)
    && |p.postfix| <= 1 && (|p.postfix| == 1 ==> IsPostfix(p.postfix[0]))
    && p.currentParam >= 0
    && forall k :: 0 <= k < |p.params| ==> p.params[k] >= 0
  }

  /** Reading one code unit keeps the fields well-formed; in particular a
      final byte hands the handlers non-negative parameters. */
  lemma ScanWellformed(p: Parser, ch: CodeUnit)
    requires Wellformed(p)
    ensures Wellformed(Scan(p, ch).parser)
  {
    if p.state == Csi && !(ch == 63 || ch == 62) && !IsDigit(ch) {
      var ps := p.params + [p.currentParam];
      assert forall k :: 0 <= k < |ps| ==> ps[k] >= 0;
    }
  }

  /** The handlers leave the fields well-formed. */
  lemma AfterWellformed(q: Parser, a: Action)
    requires Wellformed(q)
    ensures Wellformed(After(q, a))
  {
    if a.Control? && a.final == 102 {
      var hs := HvpParams(q.params);
      assert forall k :: 0 <= k < |hs| ==> hs[k] >= 0 by {
        forall k | 0 <= k < |hs| ensures hs[k] >= 0 {
          assert q.params[k] >= 0;
        }
      }
    }
  }

  /** One turn of the loop keeps the fields well-formed. */
  lemma StepWellformed(p: Parser, ch: CodeUnit)
    requires Wellformed(p)
    ensures Wellformed(After(Scan(p, ch).parser, Scan(p, ch).action))
  {
    ScanWellformed(p, ch);
    AfterWellformed(Scan(p, ch).parser, Scan(p, ch).action);
  }

  /** Over any string the fields stay well-formed.  In particular the
      prefix is never `!`, so the soft reset behind `CSI ! p` cannot be
      reached. */
  lemma {:induction false} RunWellformed(p: Parser, s: seq<CodeUnit>)
    requires Wellformed(p)
    ensures Wellformed(Run(p, s))
    ensures Run(p, s).prefix != [33]
    decreases |s|
  {
    if s != [] {
      StepWellformed(p, s[0]);
      var st := Scan(p, s[0]);
      var q := After(st.parser, st.action);
      if st.skip {
        if |s| >= 2 { RunWellformed(q, s[2..]); }
      } else {
        RunWellformed(q, s[1..]);
      }
    }
  }

  /** Running two strings one after the other, when the first does not end
      on an ESC (which might start a skip across the seam). */
  lemma {:induction false} RunAppend(p: Parser, a: seq<CodeUnit>, b: seq<CodeUnit>)
    requires a == [] || a[|a| - 1] != ESC
    ensures Run(p, a + b) == Run(Run(p, a), b)
    decreases |a|
  {
    if a == [] {
      assert a + b == b;
    } else {
      assert (a + b)[0] == a[0];
      var st := Scan(p, a[0]);
      var q := After(st.parser, st.action);
      if st.skip {
        assert (a + b)[2..] == a[2..] + b;
        RunAppend(q, a[2..], b);
      } else {
        assert (a + b)[1..] == a[1..] + b;
        RunAppend(q, a[1..], b);
      }
    }
  }

  /** In CSI state a run of digits only accumulates the current parameter,
      base 10. */
  lemma {:induction false} DigitsAccumulate(p: Parser, s: seq<CodeUnit>)
    requires p.state == Csi
    requires forall k :: 0 <= k < |s| ==> IsDigit(s[k])
    ensures Run(p, s) == p.(currentParam := Accum(p.currentParam, s))
    decreases |s|
  {
    if s != [] {
      var q := p.(currentParam := p.currentParam * 10 + s[0] as int - 48);
      assert Scan(p, s[0]) == Step(q, NoAction, false);
      DigitsAccumulate(q, s[1..]);
    }
  }

  /** Inside an OSC string everything but ESC and BEL is swallowed. */
  lemma {:induction false} OscSwallows(p: Parser, s: seq<CodeUnit>)
    requires p.state == Osc
    requires forall k :: 0 <= k < |s| ==> s[k] != ESC && s[k] != BEL
    ensures Run(p, s) == p
    decreases |s|
  {
    if s != [] {
      OscSwallows(p, s[1..]);
    }
  }

  /** The status report `ESC [ 0 n` ("terminal OK") that `deviceStatus`
      queues. */
  const StatusReport: seq<CodeUnit> := [ESC, 91, 48, 110]

  /** The status report read back ends as `CSI 0 n`. */
  lemma ReadBackStatusReport(p: Parser)
    requires p.state == Normal
    ensures Run(p, StatusReport) == Parser(Normal, [0], 0, [], [])
  {
    var p2 := p.(params := [], currentParam := 0, state := Csi);
    IntroducerRun(p);
    RunAppend(p, [ESC, 91], [48, 110]);
    assert StatusReport == [ESC, 91] + [48, 110];
    assert Show(0) + [110] == [48, 110];
    FinalParameter(p2, 0, 110);
  }

  /** The cursor position report `ESC [ r ; c R` that `deviceStatus` queues
      for the 1-based row `r` and column `c`. */
  function PositionReport(r: nat, c: nat): seq<CodeUnit> {
    [ESC, 91] + Show(r) + [Semicolon] + Show(c) + [82]
  }

  /** The report, read back by the same recogniser from the normal state,
      ends as `CSI r ; c R`: the dispatch on `R` sees exactly the parameters
      `[r, c]`, and the recogniser is back in the normal state. */
  lemma ReadBackPositionReport(p: Parser, r: nat, c: nat)
    requires p.state == Normal
    ensures Run(p, PositionReport(r, c)) == Parser(Normal, [r, c], 0, [], [])
  {
    var p2 := p.(params := [], currentParam := 0, state := Csi);
    var rest := Show(r) + ([Semicolon] + (Show(c) + [82]));
    assert PositionReport(r, c) == [ESC, 91] + rest;
    IntroducerRun(p);
    RunAppend(p, [ESC, 91], rest);
    SeparatedParameters(p2, r, c);
    assert [] + [r, c] == [r, c];
  }

  /** `r ; c R` inside a control sequence. */
  lemma SeparatedParameters(q: Parser, r: nat, c: nat)
    requires q.state == Csi && q.currentParam == 0
    ensures Run(q, Show(r) + ([Semicolon] + (Show(c) + [82]))) ==
      q.(state := Normal, params := q.params + [r, c], prefix := [], postfix := [])
  {
    var tail := Show(c) + [82];
    ParameterRun(q, r);
    SemicolonRun(q.(currentParam := r));
    RunAppend(q, Show(r), [Semicolon] + tail);
    var q4 := q.(params := q.params + [r]);
    RunAppend(q.(currentParam := r), [Semicolon], tail);
    FinalParameter(q4, c, 82);
    assert q4.params + [c] == q.params + [r, c];
  }

  /** `c R` (or `c n`) inside a control sequence. */
  lemma FinalParameter(q: Parser, c: nat, f: CodeUnit)
    requires q.state == Csi && q.currentParam == 0 && (f == 82 || f == 110)
    ensures Run(q, Show(c) + [f]) == q.(state := Normal, params := q.params + [c], prefix := [], postfix := [])
  {
    ParameterRun(q, c);
    FinalRun(q.(currentParam := c), f);
    RunAppend(q, Show(c), [f]);
  }

  /** `ESC [` from the normal state opens a control sequence with no
      parameters. */
  lemma IntroducerRun(p: Parser)
    requires p.state == Normal
    ensures Run(p, [ESC, 91]) == p.(params := [], currentParam := 0, state := Csi)
  {
    var p1 := p.(state := Escaped);
    var p2 := p1.(params := [], currentParam := 0, state := Csi);
    assert Run(p2, []) == p2;
    assert [91][1..] == [];
    assert Run(p1, [91]) == p2;
    assert [ESC, 91][1..] == [91];
  }

  /** The digits of `n`, read from a fresh parameter, leave `n` as the
      parameter being read. */
  lemma ParameterRun(p: Parser, n: nat)
    requires p.state == Csi && p.currentParam == 0
    ensures Run(p, Show(n)) == p.(currentParam := n)
  {
    AccumShow(n);
    DigitsAccumulate(p, Show(n));
  }

  /** `;` inside a control sequence closes the parameter being read. */
  lemma SemicolonRun(p: Parser)
    requires p.state == Csi
    ensures Run(p, [Semicolon]) == p.(params := p.params + [p.currentParam], currentParam := 0)
  {
    assert [Semicolon][1..] == [];
  }

  /** A final byte `R` or `n` closes the parameter being read and ends the
      control sequence. */
  lemma FinalRun(p: Parser, f: CodeUnit)
    requires p.state == Csi && (f == 82 || f == 110)
    ensures Run(p, [f]) ==
      p.(state := Normal, params := p.params + [p.currentParam], currentParam := 0, prefix := [], postfix := [])
  {
    assert [f][1..] == [];
    if f == 82 {
      assert Run(p, [82]) == After(Scan(p, 82).parser, Scan(p, 82).action);
    } else {
      assert Run(p, [110]) == After(Scan(p, 110).parser, Scan(p, 110).action);
    }
  }
}
