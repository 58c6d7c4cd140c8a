# term.js terminal core, modelled in Dafny

This project models the terminal emulator object of `static/term.js`.
It also proves what the emulator's operations do.

A `Term` keeps the following state:

- a line table used as a ring buffer: `lines`, `currentHeight` and `ybase`;
- a viewport into that table, `ydisp`;
- a cursor (`x`, `y`) and a scroll region (`scrollTop`, `scrollBottom`);
- the current display attribute, `curAttr`;
- an output queue for the reports it sends back;
- the fields of an escape-sequence recogniser: `state`, `params`, `currentParam`, `prefix` and `postfix`.

`write(str)` reads the string one UTF-16 code unit at a time. Each code unit may move the recogniser to a new state and select a handler, and the handler edits the cursor, the table or the attribute. The model keeps the source's split between state that changes in place and the arithmetic around it:

| File | Module | What it models |
|---|---|---|
| `cells.dfy` | `Cells` | A cell packed as `(ch & 0xffff) \| (attr << 16)`, the attribute word and the blank cell. |
| `decimal.dfy` | `Decimal` | How a number is written in decimal inside a report, and how the CSI state reads the digits back. |
| `jsarray.dfy` | `JsArray` | The JavaScript array operations the handlers use: `splice`, `pop` and an index store that may lengthen the array. |
| `viewport.dfy` | `Viewport` | The index arithmetic of the ring: one wrapped addition, and the two loops of `scrollDisp`. |
| `motion.dfy` | `Motion` | How each cursor-moving CSI handler turns its parameters into a row or a column. |
| `sgr.dfy` | `Sgr` | How SGR codes (section 8.3.117 of ECMA-48) update the attribute word. |
| `rows.dfy` | `Rows` | The edits inside one row: erase to the end, insert blanks, delete cells, erase cells, backward tab. |
| `screen.dfy` | `Screen` | The line table as a value and every handler's effect on it: `scroll`, `eraseLine`, `insertLines`, `deleteLines`, `eraseInDisplay` and the character edits. |
| `screen_laws.dfy` | `ScreenLaws` | What these effects mean on the live screen. |
| `lines_laws.dfy` | `LineLaws` | What `insertLines` and `deleteLines` mean on the live screen. |
| `parser.dfy` | `Parser` | The recogniser: one step per code unit, and runs over strings. |
| `effects.dfy` | `Effects` | The fields of a terminal as one value, and what each handler, each turn of `write`'s loop and a whole `write` make of them. |
| `term.dfy` | `Terminal` | The class `Term`: its fields, one method per handler, the dispatch on the final byte of a control sequence, and `write`. |

Some handlers read or write through an entry of the table that is not an array. That entry is `undefined` past the end of the table, or a number that `deleteChars` as written leaves there. Such a handler throws in JavaScript, and the exception leaves `write` with the changes made before it. The model returns `ok == false` (or `Edit(.., false)`, or `Outcome.Threw(i)`) and keeps those partial changes.

The recogniser, `write`'s loop and the class follow the code, including two places that differ from the usual description of this terminal:

- The source's DCH (`deleteChars`) pushes blanks onto the line table, so it changes more than the cursor's row.
- The source's DL (`deleteLines`) blanks the old bottom row of the scroll region and leaves an empty array below it.

The class runs both as written. Both are listed under "## Findings", where each has a corrected version with the intended property proved about it.

Each handler of the class is proved to leave its fields as the function of the same name in `Effects` says, applied to the old fields (`Term.FieldsOf`). The `Effects` functions state the ranges each handler keeps, which fields it changes and what it does to the recogniser. `Effects.Run` and `Effects.Write` compose them over a string, so `Term.Write` is tied to every handler's effect on the screen.

The live screen is the `rows` entries of the ring from `ybase` on (`Screen.LiveScreen`). `Screen.Tidy` is the state a reset leaves. Every default-region operation keeps it, except IL and ESC M on a ring whose live screen wraps round the end of the table, and DCH and DL as written:

- every slot of the table is a row of exactly `cols` cells;
- the table has `currentHeight` entries;
- `0 <= ybase < currentHeight`;
- `rows <= currentHeight <= totalHeight`.

## Model

| member | source | states |
|---|---|---|
| Cells.Pack | static/term.js:406 | A stored cell gives back the printed code unit from its low 16 bits and the attribute from the bits above. The cell stays below 2^31, so it is a non-negative JavaScript integer. |
| Cells.PackInjective | static/term.js:406 | Two cells are equal only when both their characters and their attributes are equal. |
| Decimal.Digit | static/term.js:1431-1436 | The code unit written for a digit is an ASCII digit whose value is that digit. |
| Decimal.Show | static/term.js:1431-1436 | A number in a report is written as at least one ASCII digit, with no leading zero. |
| Decimal.AccumAppend | static/term.js:510-511 | Reading two runs of digits one after the other accumulates the same value as reading them joined. |
| Decimal.AccumShow | static/term.js:510-511 | The CSI parameter accumulator, started from 0, reads back exactly the number the report wrote. |
| Decimal.ShowInjective | static/term.js:1431-1436 | Different numbers are written as different digit strings. |
| JsArray.SpliceStart | static/term.js:1498-1531 | `splice` starts at an index no larger than the array's length, and exactly at the requested start when that start is inside the array. |
| JsArray.Splice | static/term.js:1498-1531 | The array after `splice` has lost `min(del, len - start)` elements and gained the items. |
| JsArray.SpliceParts | static/term.js:1498-1531 | `splice` keeps the elements before the start, then the items, then the elements after the deleted ones. |
| JsArray.Pop | static/term.js:1455 | `pop` drops the last element, and leaves an empty array unchanged. |
| JsArray.SetAt | static/term.js:406 | After an index store the array holds the value at that index, and is lengthened to that index plus one when needed. |
| JsArray.SetAtOthers | static/term.js:406 | An index store keeps every other old element, and fills any slots it opens with holes. |
| JsArray.InsertThenDelete | static/term.js:1502-1508 | An insertion followed by a deletion further on rotates the segment between them down by one. |
| JsArray.DeleteThenInsert | static/term.js:1523-1527 | An insertion followed by a deletion earlier on rotates the segment between them up by one. |
| JsArray.InsertThenSet | static/term.js:1502-1503 | Overwriting an element that was just inserted is the same as inserting the new value. |
| JsArray.SetBeforeInsert | static/term.js:1502-1503 | A store in front of an insertion point commutes with the insertion. |
| JsArray.RotateDown | static/term.js:1502-1508 | The rotation of `InsertThenDelete`, stated element by element. |
| JsArray.RotateUp | static/term.js:1523-1527 | The rotation of `DeleteThenInsert`, stated element by element. |
| Viewport.WrapOnceIsMod | static/term.js:403-405 | For sums in `[0, 2h)`, one conditional subtraction of the height is reduction modulo the height. |
| Viewport.RingDistIsMod | static/term.js:286-315 | The number of single steps down the ring from one slot to another is their difference modulo the height. |
| Viewport.ForwardClosedForm | static/term.js:289-297 | Scrolling the viewport forward `k` rows lands on `ybase` when `ybase` is at most `k` steps ahead; otherwise it moves exactly `k` slots round the ring. |
| Viewport.BackwardClosedForm | static/term.js:298-312 | Scrolling the viewport back `k` rows lands on the stop row when that row is at most `k` steps behind; otherwise it moves exactly `k` slots back round the ring. |
| Viewport.StepsStayInRing | static/term.js:286-315 | Both loops of `scrollDisp` keep `ydisp` inside the ring. |
| Viewport.StepsKeepRange | static/term.js:286-315 | From a `ydisp` of -1 (which a scroll can leave), both loops of `scrollDisp` still keep it in `[-1, height)`. |
| Motion.AtLeast1 | static/term.js:1217-1218 | A count below 1 (an omitted parameter) is read as 1, and any other count is kept. |
| Motion.Back | static/term.js:1215-1221 | CUU moves the row up by the count, stopping at row 0. CUB (1249-1255) and CPL (1475-1483) move back the same way. |
| Motion.Down | static/term.js:1225-1233 | CUD moves the row down by the count and stops at the last row. |
| Motion.Right | static/term.js:1237-1245 | CUF moves the column right by the count and stops at the last column. The test is `>= cols - 1`, as in the source. |
| Motion.Coordinate | static/term.js:1259-1284 | A 1-based CUP coordinate becomes 0-based: 0 when it is below 1, the last index when it is too large, and `p - 1` otherwise. |
| Motion.CupColumn | static/term.js:1259-1284 | CUP's column is column 0 without a second parameter, and the clamped second parameter otherwise. |
| Motion.CharAbsolute | static/term.js:1487-1492 | CHA sets the column to the parameter raised to 1, with no conversion from 1-based and no clamp. |
| Motion.Absolute | static/term.js:1562-1570 | HPA and VPA clamp the raised parameter to the last index after making it 0-based. |
| Motion.HvpColumnAsWritten | static/term.js:1656-1669 | As written, HVP's column is `NaN` exactly when the second parameter is missing, and in range otherwise. |
| Motion.HvpColumn | static/term.js:1656-1669 | Corrected HVP: a missing column is column 0, and a column that is present is clamped like HPA. |
| Motion.HvpOneParameter | static/term.js:1658-1667 | With one parameter, the as-written column is `NaN` and the corrected column is 0. |
| Motion.HvpTwoParameters | static/term.js:1656-1669 | With two parameters, the as-written and corrected HVP agree with each other and with CUP. |
| Motion.TabStop | static/term.js:379-385 | TAB either moves to the next multiple of 8, at most 8 columns on and never past `cols`, or stays where it is. |
| Motion.RegionTop | static/term.js:1918-1922 | DECSTBM's top row is `p0 - 1`, or 0 when `p0` is 0. It is not clamped. |
| Motion.RegionBottom | static/term.js:1918-1922 | DECSTBM's bottom row is `p1 - 1`, or the last row when `p1` is missing or 0. It is not clamped. |
| Motion.ScrollUpBy | static/term.js:1946-1948 | SU scrolls the viewport up by the parameter, or by 1 when the parameter is 0. |
| Motion.ScrollDownBy | static/term.js:1951-1953 | SD scrolls the viewport down by the parameter, or by 1 when the parameter is 0. |
| Motion.TabCount | static/term.js:1980-1981 | CBT goes back `8 * p` columns, or 8 when `p` is 0: always a positive multiple of 8. |
| Motion.CupReportsItself | static/term.js:1259-1284 | After CUP to an in-range row and column, the cursor's 1-based coordinates are exactly the parameters. |
| Sgr.SetFg | static/term.js:1388-1389 | Codes 30-37 write the foreground field and leave every other bit alone. |
| Sgr.SetBg | static/term.js:1390-1391 | Codes 40-47 write the background field and leave every other bit alone. |
| Sgr.SetFlag | static/term.js:1394-1399 | Bold and underline set their own bit and leave every other bit alone. |
| Sgr.ColourIndex | static/term.js:1389-1391 | A code's offset from 30 or 40 is a 3-bit colour index equal to that offset. |
| Sgr.ForegroundCode | static/term.js:1388-1389 | Code `p` in 30-37 makes the foreground `p - 30` and keeps every other bit. |
| Sgr.BackgroundCode | static/term.js:1390-1391 | Code `p` in 40-47 makes the background `p - 40` and keeps every other bit. |
| Sgr.FlagCodes | static/term.js:1394-1399 | Code 1 sets exactly the bold bit (bit 8), and code 4 sets exactly the underline bit (bit 10). |
| Sgr.SetFgTwice | static/term.js:1389 | Setting the same foreground twice is idempotent. |
| Sgr.SetBgTwice | static/term.js:1391 | Setting the same background twice is idempotent. |
| Sgr.SetFlagTwice | static/term.js:1394-1399 | Setting a flag twice is idempotent. |
| Sgr.ApplyCodeIdempotent | static/term.js:1386-1400 | Applying any single SGR code twice is the same as applying it once. |
| Sgr.FgBgCommute | static/term.js:1388-1391 | Foreground and background updates commute. |
| Sgr.FgFlagCommute | static/term.js:1388-1399 | Foreground and flag updates commute. |
| Sgr.BgFlagCommute | static/term.js:1390-1399 | Background and flag updates commute. |
| Sgr.FlagsCommute | static/term.js:1394-1399 | Bold and underline commute. |
| Sgr.OrderedCommute | static/term.js:1386-1400 | Two codes that write different fields, taken in field order, commute. |
| Sgr.ApplyCodeCommutes | static/term.js:1386-1400 | Any two codes that write different fields, neither of them a reset, commute. |
| Sgr.ApplyAllAppend | static/term.js:1385-1401 | Applying a concatenated parameter list is applying the first part, then the second. |
| Sgr.ResetForgetsPrefix | static/term.js:1392-1393 | A code 0 anywhere in the list wipes out every code before it. |
| Sgr.UnknownCodesIgnored | static/term.js:1386-1400 | Codes the handler does not know leave the attribute unchanged. |
| Sgr.DefAttrFields | static/term.js:72 | The default attribute is foreground 7 on background 0, with neither flag set. |
| Rows.Blanks | static/term.js:1144-1154 | `n` blanks are `n` copies of the blank cell. |
| Rows.FillFromCells | static/term.js:1137-1139 | Erasing from a column blanks every cell from there to `cols - 1`, keeps the cells before it and keeps any cells past `cols`. |
| Rows.FillFromTidy | static/term.js:1137-1139 | On a full row, erasing from `x` keeps `row[..x]` and blanks the rest, so the row keeps its width. |
| Rows.FillFromEmpty | static/term.js:1137-1139 | Erasing a fresh empty array from column 0 produces a row of `cols` blanks. |
| Rows.InsertOne | static/term.js:1453-1455 | One ICH turn on a full row shifts the tail right by one, puts a blank at the cursor and drops the last cell. |
| Rows.InsertBlanksTidy | static/term.js:1447-1457 | ICH on a full row: `min(n, cols - x)` blanks enter at the cursor, the row shifts right, and as many cells fall off the end. |
| Rows.DeleteCellsCut | static/term.js:1541-1542 | As written, DCH removes `n` cells at the cursor (or all up to the row's end) and nothing enters the row. |
| Rows.DeleteShiftTidy | static/term.js:1536-1545 | Corrected DCH on a full row: `min(n, cols - x)` cells leave at the cursor, the rest closes up, and as many blanks fill the end. |
| Rows.EraseCellsTidy | static/term.js:1549-1558 | ECH on a full row blanks `min(n, cols - x)` cells from the cursor on, in place. |
| Rows.BackTabX | static/term.js:1986-1994 | CBT moves the cursor `n` columns left, stopping at column 0. |
| Rows.BackTabTidy | static/term.js:1977-1996 | CBT deletes the `min(n, x)` cells left of the cursor; the rest of the row moves left and as many blanks fill its end. |
| Rows.EditsKeepWidth | static/term.js:1125-1558 | Erase-to-end, ICH, ECH and CBT each keep a row of `cols` cells at `cols` cells. |
| Screen.EntryAt | static/term.js:403-406 | Reading the table outside its bounds gives `undefined`. |
| Screen.PutCell | static/term.js:406 | A print succeeds exactly when the target entry is an array. It then stores the cell in that row only, and the table keeps its length. |
| Screen.EraseLine | static/term.js:1125-1142 | `eraseLine` does nothing when the column is at or past `cols`. Otherwise it succeeds exactly when the wrapped screen row is an array. |
| Screen.Feed | static/term.js:351-364 | A line feed moves the cursor down one row, or scrolls and keeps the row when it would pass the region's bottom. |
| Screen.PhysInjective | static/term.js:403-405 | Distinct screen rows occupy distinct table slots, all inside the ring. |
| Screen.PhysAdvance | static/term.js:253-269 | After `ybase` advances one step, screen row `k` sits in the slot where screen row `k + 1` used to be. |
| Screen.ScrollShiftsScreen | static/term.js:246-284 | In the default region, a scroll moves the live screen up by one row, puts a blank row at the bottom and keeps the state tidy. |
| Screen.ScrollGrowing | static/term.js:246-284 | Scrolling while the ring is still growing appends the blank row and shifts the live screen up. |
| Screen.ScrollFull | static/term.js:246-284 | Scrolling a full ring overwrites the oldest row with the blank row and shifts the live screen up. |
| Screen.RegionEnd | static/term.js:1504-1507 | The unwrapped table index the line handlers use for the region's bottom is `ybase + scrollBottom`. |
| Screen.InsertLinesStops | static/term.js:1500-1509 | Once a turn of `insertLines` throws, the turns after it change nothing. |
| Screen.DeleteLinesAsWrittenStops | static/term.js:1522-1528 | Once a turn of `deleteLines` as written throws, the turns after it change nothing. |
| Screen.Numbers | static/term.js:1543 | The entries DCH as written pushes are `n` numbers. |
| Screen.FreshLines | static/term.js:1203-1206 | `reset` builds `rows` blank rows of `cols` cells. |
| Screen.FreshTidy | static/term.js:1189-1207 | A reset leaves a tidy ring whose live screen is all blanks. |
| ScreenLaws.PhysInRange | static/term.js:403-405 | Every screen row maps to a slot inside the ring. |
| ScreenLaws.PutCellTidy | static/term.js:403-407 | A print on a tidy state stores the cell in the cursor's row, at the cursor's column, keeps the width, and leaves every other live row unchanged. |
| ScreenLaws.EraseLineTidy | static/term.js:1125-1142 | `eraseLine` on a tidy state blanks the cursor's row from the column on, keeps the cells before it, and leaves the other live rows unchanged. |
| ScreenLaws.ReplaceRow | static/term.js:1125-1558 | Replacing the row under one screen row with another full row changes that live row only, and keeps the state tidy. |
| ScreenLaws.EraseRowsFromTidy | static/term.js:1297-1303 | The loop of ED blanks every screen row from `j` down and keeps the rows above. |
| ScreenLaws.EraseBelowTidy | static/term.js:1297-1303 | ED erases the cursor's row from the cursor on, blanks every row below it and keeps the rows above. |
| ScreenLaws.NoWrapPhys | static/term.js:1451 | While `ybase + y` has not wrapped, the unwrapped index the character edits use is the right slot. |
| ScreenLaws.InsertCharsTidy | static/term.js:1447-1457 | ICH on an unwrapped cursor row shifts the row right from the cursor, keeps its width and leaves the other rows unchanged. |
| ScreenLaws.EraseCharsTidy | static/term.js:1549-1558 | ECH on an unwrapped cursor row blanks `min(n, cols - x)` cells from the cursor and leaves the other rows unchanged. |
| ScreenLaws.BackTabTidy | static/term.js:1977-1996 | CBT on an unwrapped cursor row deletes the cells left of the cursor, pads with blanks, moves the cursor `min(n, x)` left, and leaves the other rows unchanged. |
| ScreenLaws.DeleteCharsAsWrittenTidy | static/term.js:1536-1545 | As written, DCH shortens the cursor's row by `min(n, cols - x)` cells and lengthens the line table by `n` numbers. |
| ScreenLaws.DeleteCharsTidy | static/term.js:1536-1545 | Corrected DCH on an unwrapped cursor row closes the row up from the cursor and pads it with blanks. It keeps the state tidy and leaves the other rows unchanged. |
| ScreenLaws.CharEditsThrowPastWrap | static/term.js:1451 | Once `ybase + y` is past the ring's end, ICH, ECH and DCH throw instead of editing the cursor's row. |
| LineLaws.BlankRows | static/term.js:1144-1154 | `k` copies of the blank row. |
| LineLaws.FlatLive | static/term.js:403-405 | On an unwrapped screen, live row `k` is table slot `ybase + k`. |
| LineLaws.LiveOfFlat | static/term.js:403-405 | On an unwrapped screen, the live screen is read slot by slot from the table. |
| LineLaws.LiveIsSlice | static/term.js:403-405 | The live screen of an unwrapped ring is the slice `lines[ybase..ybase + rows]`. |
| LineLaws.OutsideKept | static/term.js:1496-1532 | A table that agrees outside the screen keeps the scrollback above the screen and the rows below it. |
| LineLaws.ShiftedDownLive | static/term.js:1496-1513 | When the rows from `y` on move one slot down, the live screen is `s[..y] + [v] + s[y..rows-1]`. |
| LineLaws.ShiftedUpLive | static/term.js:1517-1532 | When the rows after `y` move one slot up, the live screen is `s[..y] + s[y+1..] + [v]`. |
| LineLaws.OpenRowErase | static/term.js:1502-1503 | Inside an `insertLines` turn, the erase fills the fresh empty array with `cols` blanks from the column on. |
| LineLaws.OpenRowShape | static/term.js:1502-1508 | One `insertLines` turn rotates the region down by one slot, with the erased new row at the cursor. |
| LineLaws.OpenRowFlat | static/term.js:1496-1513 | One `insertLines` turn pushes the screen down from the cursor's row, drops the bottom row and keeps the state tidy. |
| LineLaws.InsertedLive | static/term.js:1496-1513 | After `k` rows have gone in at `y`, the live screen is `s[..y] + k blank rows + s[y..rows-k]`. |
| LineLaws.InsertedTidy | static/term.js:1496-1513 | Inserting blank rows keeps every slot a full row. |
| LineLaws.OpenRowSlots | static/term.js:1502-1508 | One turn from column 0 completes and puts one blank row in at `y`, slot by slot. |
| LineLaws.InsertedCompose | static/term.js:1501-1509 | `k` rows in at `y` followed by one more is `min(k + 1, rows - y)` rows in. |
| LineLaws.OpenRowRun | static/term.js:1501-1509 | Any run of `n` turns completes, with `min(n, rows - y)` blank rows in at `y`. |
| LineLaws.InsertLinesFlat | static/term.js:1496-1513 | IL in the default region puts `min(n, rows - y)` blank rows in at the cursor's row, drops as many from the bottom and keeps the state tidy. |
| LineLaws.InsertLinesSlots | static/term.js:1496-1513 | `insertLines` on an unwrapped screen, slot by slot. |
| LineLaws.CloseRowShape | static/term.js:1517-1532 | One corrected `deleteLines` turn rotates the region up by one slot, with a blank row at the bottom. |
| LineLaws.DeletedLive | static/term.js:1517-1532 | After `k` rows have gone from `y`, the live screen is `s[..y] + s[y+k..] + k blank rows`. |
| LineLaws.DeletedTidy | static/term.js:1517-1532 | Deleting rows and appending blank ones keeps every slot a full row. |
| LineLaws.CloseRowSlots | static/term.js:1523-1527 | One corrected turn takes the cursor row out and puts a blank row in at the bottom, slot by slot. |
| LineLaws.DeletedCompose | static/term.js:1522-1528 | `k` rows out at `y` followed by one more is `min(k + 1, rows - y)` rows out. |
| LineLaws.CloseRowRun | static/term.js:1522-1528 | Any run of `n` corrected turns completes, with `min(n, rows - y)` rows out at `y`. |
| LineLaws.DeleteLinesFlat | static/term.js:1517-1532 | Corrected DL in the default region takes `min(n, rows - y)` rows out at the cursor's row, adds as many blank rows at the bottom and keeps the state tidy. |
| LineLaws.DeleteLinesSlots | static/term.js:1517-1532 | Corrected `deleteLines` on an unwrapped screen, slot by slot. |
| LineLaws.CloseRowAsWrittenErase | static/term.js:1525-1526 | As written, a `deleteLines` turn erases the old bottom row of the region rather than the new empty array. |
| LineLaws.CloseRowAsWrittenTable | static/term.js:1523-1527 | As written, one turn on a flat screen is: blank the old bottom row, put the empty array in below it, and take out the cursor's entry. |
| LineLaws.CloseRowAsWrittenShape | static/term.js:1523-1527 | As written, one turn takes out the cursor row, blanks the old bottom row and leaves the empty array below it. |
| LineLaws.CloseRowAsWrittenFlat | static/term.js:1517-1532 | As written, one DL turn leaves the live screen `s[..y] + s[y+1..rows-1] + [blank row, empty array]`. |
| LineLaws.BlankedBottomLive | static/term.js:1526 | Blanking the bottom slot of an unwrapped screen blanks the last live row. |
| LineLaws.DeleteLineBottomDiffers | static/term.js:1523-1527 | After one DL turn, the bottom screen row is an empty array as written and a row of `cols` blanks as corrected. |
| LineLaws.WrappedOpenRowGrows | static/term.js:1496-1513 | On a tidy full ring whose live screen wraps, one IL turn and the same turn as ESC M runs it at the region's top (1176-1185) both complete, but the table gains an entry and is no longer tidy. |
| Parser.Scan | static/term.js:337-932 | One code unit: in the normal state the recogniser leaves that state exactly on ESC. A handler that needs the final byte runs only in CSI, and only on a final byte. The next code unit is skipped exactly for ESC inside OSC. |
| Parser.HvpParams | static/term.js:1657-1658 | HVP raises each of its first two parameters that is below 1 to 1 in place, and keeps the length and the other parameters. |
| Parser.ScanWellformed | static/term.js:502-524 | Reading one code unit keeps the recogniser's fields in range: at most one prefix and postfix character, each from its set, and non-negative parameters. |
| Parser.AfterWellformed | static/term.js:525-929 | The handlers keep the recogniser's fields in range. |
| Parser.StepWellformed | static/term.js:337-932 | One turn of the loop keeps the fields in range. |
| Parser.RunWellformed | static/term.js:337-932 | The fields stay in range over any string, and the prefix is never `!`. So the `CSI ! p` soft reset cannot be reached. |
| Parser.RunAppend | static/term.js:336-932 | Running two strings one after the other is running their concatenation, when the first does not end in an ESC whose next code unit would be skipped. |
| Parser.DigitsAccumulate | static/term.js:510-511 | In CSI state, a run of digits only accumulates the current parameter in decimal. |
| Parser.OscSwallows | static/term.js:494-500 | Inside OSC, everything except ESC and BEL is swallowed without any change. |
| Parser.ReadBackStatusReport | static/term.js:1428-1429 | The status report `ESC [ 0 n`, read by the same recogniser, ends as the control sequence with the single parameter 0. |
| Parser.ReadBackPositionReport | static/term.js:1431-1436 | The cursor report `ESC [ r ; c R`, read back, ends in the normal state with parameters `[r, c]`. |
| Parser.SeparatedParameters | static/term.js:510-525 | `r ; c R` inside a control sequence closes both parameters and ends the sequence. |
| Parser.FinalParameter | static/term.js:510-525 | `c R` or `c n` closes the last parameter and ends the sequence. |
| Parser.IntroducerRun | static/term.js:388-422 | `ESC [` from the normal state opens a control sequence with no parameters. |
| Parser.ParameterRun | static/term.js:510-511 | The digits of `n`, read from a fresh parameter, leave `n` as the current parameter. |
| Parser.SemicolonRun | static/term.js:513-517 | `;` closes the current parameter and starts a new one at 0. |
| Parser.FinalRun | static/term.js:513-525 | A final `R` or `n` closes the parameter, returns to the normal state and clears the prefix and postfix. |
| Effects.AnyAltScreenSnoc | static/term.js:1753-1790 | A list contains an alternate-screen code exactly when its prefix does or its last code is one. |
| Effects.WithSnapshot | static/term.js:1893-1901 | Copying a snapshot's eight fields back gives fields whose snapshot is exactly that one. |
| Effects.Store | static/term.js:1447-1558 | An in-place edit changes only the table: to the edit's result when it succeeds, and not at all when it throws. |
| Effects.Scroll | static/term.js:246-284 | `scroll` keeps the ranges, makes the ring `Screen.Scroll` of the old ring, puts the viewport on the new `ybase`, and changes only the table, its height, `ybase` and `ydisp`. |
| Effects.LineFeed | static/term.js:351-364 | A line feed keeps the ranges and makes the ring and the row `Screen.Feed` of the old ones. The viewport moves to `ybase` exactly when it scrolled, and only the ring fields, the viewport and the row change. |
| Effects.Reset | static/term.js:1189-1207 | `reset` keeps the ranges and leaves a fresh table of blank rows, the cursor and viewport home, the full region, an empty queue and the normal state. The attribute, the saved cursor, the snapshot and the other recogniser fields stay. |
| Effects.Print | static/term.js:392-410 | A printed character keeps the ranges, and leaves the recogniser, the attribute, the queue and the snapshot alone. |
| Effects.ReverseIndex | static/term.js:1173-1186 | ESC M keeps the ranges and changes only the table, the row and the recogniser. It returns to the normal state when it completes, and a throw leaves the recogniser as it was. |
| Effects.OpenAtCursor | static/term.js:1176-1185 | At the region's top, ESC M changes only the table, and the state returns to normal exactly when the turn completes. |
| Effects.PerformInline | static/term.js:339-385 | NUL, BEL, CR, BS, TAB, ESC 7 and ESC 8 keep the ranges and change only the cursor and the saved cursor. |
| Effects.PerformFeed | static/term.js:351-364 | LF, VT, FF, ESC D and ESC E keep the ranges and leave the recogniser as `Parser.After` says. |
| Effects.PerformSimple | static/term.js:339-490 | The handlers outside control sequences that cannot throw keep the ranges and leave the recogniser as `Parser.After` says. |
| Effects.DispatchCursor | static/term.js:528-557 | CUU, CUD, CUF, CUB and CUP keep the ranges and change only the cursor. |
| Effects.DispatchColumn | static/term.js:588-643 | CNL, CPL, CHA, HPA and HPR keep the ranges and change only the cursor. |
| Effects.DispatchRow | static/term.js:652-669 | VPA, VPR and HVP keep the ranges and change only the cursor and the parameters, which become `Parser.ControlParams` of the old ones. |
| Effects.DispatchRegion | static/term.js:684-699 | DECSTBM, CSI s and CSI u keep the ranges and change only the cursor, the region and the saved cursor. |
| Effects.DispatchMove | static/term.js:528-697 | The moving finals keep the ranges, leave the recogniser as `Parser.ControlParams` says, and leave the table, the attribute and the queue alone. |
| Effects.DispatchErase | static/term.js:559-588 | ED, EL and ICH keep the ranges and change only the table. A throw happens only for a final whose handler can throw. |
| Effects.DispatchLines | static/term.js:608-619 | IL and DL keep the ranges and change only the table. A throw happens only for a final whose handler can throw. |
| Effects.DispatchDelete | static/term.js:620-631 | DCH and ECH keep the ranges and change only the table. A throw happens only for a final whose handler can throw. |
| Effects.DispatchTab | static/term.js:704-734 | CBT and CHT keep the ranges and change only the table and the column, and CHT always throws. |
| Effects.SetModeOf | static/term.js:1753-1790 | Fields that SM's loop leaves, described field by field (the list emptied, the cursor shown for `?25`, and for an alternate-screen code on the normal screen the snapshot saved and the screen reset), are exactly `Effects.SetMode` of the old fields. |
| Effects.ResetModeOf | static/term.js:1872-1912 | Fields that RM's loop leaves, described field by field (the list emptied, the cursor hidden for `?25`, and for an alternate-screen code on the alternate screen the snapshot restored and forgotten), are exactly `Effects.ResetMode` of the old fields. |
| Effects.DispatchMode | static/term.js:670-681 | SM and RM keep the ranges, the attribute and the saved cursor, and empty the parameter list and nothing else of the recogniser. |
| Effects.DispatchOther | static/term.js:567-728 | SGR, DSR, SU, SD and the finals that do nothing keep the ranges and change only the attribute, the queue and the viewport. |
| Effects.Dispatch | static/term.js:525-929 | The switch on the final byte keeps the ranges and leaves the recogniser as `Parser.ControlParams` says. It throws only for a final whose handler can throw, and always for `I`. |
| Effects.PerformControl | static/term.js:525-929 | A control sequence keeps the ranges. When its handler returns, the recogniser ends as `Parser.After` says; when it throws, the recogniser is as it was. |
| Effects.Perform | static/term.js:339-932 | The handler of one code unit keeps the ranges. When it returns, the recogniser ends as `Parser.After` says; it throws only from a handler that can throw, and then leaves the recogniser as it was. |
| Effects.Run | static/term.js:336-932 | The loop from any index keeps the ranges and the recogniser's fields in range, and a throw stops it at a code unit between that index and the end. |
| Effects.Write | static/term.js:317-940 | `write` keeps the ranges and the recogniser's fields in range, and a throw stops it at a code unit inside the string. |
| Effects.RunParser | static/term.js:336-932 | When no handler throws, the loop leaves the recogniser's fields exactly as `Parser.Run` over the rest of the string does: the handlers and the recogniser agree. |
| Effects.CupThenReport | static/term.js:554-583 | CUP to an in-range row `r` and column `c` followed by DSR 6 queues exactly `ESC [ r ; c R`. |
| Effects.AltScreenRoundTrip | static/term.js:1753-1912 | `CSI ? 1049 h` shows a fresh blank screen, and `CSI ? 1049 l` after it restores the normal screen's eight fields exactly and forgets the snapshot. |
| Terminal.BlankLine | static/term.js:1144-1154 | `blankLine` returns `cols` blanks. |
| Terminal.FreshTable | static/term.js:1201-1206 | The loop in `reset` builds `rows` blank rows. |
| Terminal.ScrollTable | static/term.js:246-284 | The statements of `scroll` compute the ring that `Screen.Scroll` specifies; the height only grows, up to `totalHeight`. |
| Terminal.EraseRow | static/term.js:1125-1142 | The loop of `eraseLine` computes `Screen.EraseLine`. |
| Terminal.SpliceTurnTable | static/term.js:1498-1531 | The three statements of one `insertLines` or `deleteLines` turn (insert an empty array, erase one screen row, take out one entry) compute `Screen.SpliceTurn`, stopping after the insertion when the erase throws. |
| Terminal.OpenRowTable | static/term.js:1502-1508 | One `insertLines` or `reverseIndex` turn on the table computes `Screen.OpenRow`. |
| Terminal.CloseRowTable | static/term.js:1523-1527 | One `deleteLines` turn as written computes `Screen.CloseRowAsWritten`: the empty array goes in below the region and the erase hits the old bottom row. |
| Terminal.InsertCharsTable | static/term.js:1447-1457 | The ICH loop computes `Screen.InsertChars`. |
| Terminal.EraseCharsTable | static/term.js:1549-1558 | The ECH loop computes `Screen.EraseChars`. |
| Terminal.DeleteCharsTable | static/term.js:1536-1545 | The DCH loop as written computes `Screen.DeleteCharsAsWritten`: the row loses the cells and the line table gains `n` numbers. |
| Terminal.BackTabTable | static/term.js:1977-1996 | The CBT loop computes `Screen.BackTab`, including the column after a throw. |
| Terminal.InsertLinesTable | static/term.js:1496-1513 | The IL loop computes `Screen.InsertLines`, stopping at a throw. |
| Terminal.DeleteLinesTable | static/term.js:1517-1532 | The DL loop as written computes `Screen.DeleteLinesAsWritten`, stopping at a throw. |
| Terminal.EraseBelowTable | static/term.js:1297-1303 | The ED loop computes `Screen.EraseBelow`. |
| Terminal.Term.constructor | static/term.js:32-101 | `new Term` followed by `open` produces `rows` blank rows, the cursor at the origin, the full scroll region, the default attribute, an empty queue and an idle recogniser. |
| Terminal.Term.EraseLine | static/term.js:1125-1142 | `eraseLine` stores the table that `Screen.EraseLine` gives, or reports the throw and keeps the table. |
| Terminal.Term.Scroll | static/term.js:246-284 | `scroll` leaves the fields as `Effects.Scroll` of the old ones, so the ring is `Screen.Scroll` of the old ring and the viewport is on `ybase`. |
| Terminal.Term.LineFeed | static/term.js:351-364 | LF, VT and FF leave the fields as `Effects.LineFeed` of the old ones: the ring and row are `Screen.Feed` of the old ones, and the viewport follows `ybase` only when that scrolled. |
| Terminal.Term.ScrollDisp | static/term.js:286-315 | `scrollDisp` moves `ydisp` forward, stopping at `ybase`, or backward, stopping at the slot of the screen's last row. |
| Terminal.Term.Index | static/term.js:1161-1170 | ESC D leaves the fields as `Effects.LineFeed` does, with the recogniser back in the normal state. |
| Terminal.Term.ReverseIndex | static/term.js:1173-1186 | ESC M leaves the fields as `Effects.ReverseIndex` of the old ones: one row up, or at the region's top a blank row opened at the cursor. |
| Terminal.Term.OpenAtCursor | static/term.js:1176-1185 | The region-top branch of ESC M leaves the fields as `Effects.OpenAtCursor` of the old ones. |
| Terminal.Term.Reset | static/term.js:1189-1207 | `reset` leaves the fields as `Effects.Reset` of the old ones, the state `IsReset` describes: a fresh table, the origin, the full region, an empty queue and an idle recogniser. |
| Terminal.Term.SetScreen | static/term.js:1893-1901 | Leaving the alternate screen copies back exactly the eight fields of the snapshot. |
| Terminal.Term.SetRing | static/term.js:1894-1897 | The first half of that copy: the table, its height, `ybase` and `ydisp`. |
| Terminal.Term.SetCursor | static/term.js:1898-1901 | The second half: the cursor and the scroll region. |
| Terminal.Term.CursorUp | static/term.js:1215-1221 | CUU sets `y` to `Motion.Back` of the old row. |
| Terminal.Term.CursorDown | static/term.js:1225-1233 | CUD sets `y` to `Motion.Down` of the old row. |
| Terminal.Term.CursorForward | static/term.js:1237-1245 | CUF sets `x` to `Motion.Right` of the old column. |
| Terminal.Term.CursorBackward | static/term.js:1249-1255 | CUB sets `x` to `Motion.Back` of the old column. |
| Terminal.Term.CursorPos | static/term.js:1259-1284 | CUP sets the row and the column from the clamped 1-based parameters. |
| Terminal.Term.CursorNextLine | static/term.js:1461-1471 | CNL moves down like CUD and goes to column 0. |
| Terminal.Term.CursorPrecedingLine | static/term.js:1475-1483 | CPL moves up like CUU and goes to column 0. |
| Terminal.Term.CursorCharAbsolute | static/term.js:1487-1492 | CHA sets `x` to the raised parameter, unclamped, as written. |
| Terminal.Term.CharPosAbsolute | static/term.js:1562-1570 | HPA sets `x` to the 1-based parameter, clamped to the last column. |
| Terminal.Term.HPositionRelative | static/term.js:1574-1583 | HPR moves like CUF. |
| Terminal.Term.LinePosAbsolute | static/term.js:1631-1639 | VPA sets `y` to the 1-based parameter, clamped to the last row. |
| Terminal.Term.VPositionRelative | static/term.js:1642-1651 | VPR moves like CUD. |
| Terminal.Term.HVPosition | static/term.js:1656-1669 | HVP raises its first two parameters to 1 in place, then sets the row like VPA and the column with the corrected `Motion.HvpColumn`. |
| Terminal.Term.SaveCursor | static/term.js:1925-1928 | ESC 7 and CSI s remember the cursor. |
| Terminal.Term.RestoreCursor | static/term.js:1931-1934 | ESC 8 and CSI u return to the remembered cursor. |
| Terminal.Term.SetScrollRegion | static/term.js:1918-1922 | DECSTBM with the prefix `?` changes nothing. Otherwise the region becomes `Motion.RegionTop` to `Motion.RegionBottom`. |
| Terminal.Term.EraseInDisplay | static/term.js:1297-1303 | ED stores `Screen.EraseBelow` of the old ring and reports whether it completed. |
| Terminal.Term.EraseInLine | static/term.js:1315-1317 | EL is `eraseLine` at the cursor. |
| Terminal.Term.InsertChars | static/term.js:1447-1457 | ICH stores `Screen.InsertChars` at the unwrapped row `y + ybase`, or reports the throw and keeps the table. |
| Terminal.Term.DeleteChars | static/term.js:1536-1545 | DCH as written stores `Screen.DeleteCharsAsWritten` at the unwrapped row, or reports the throw and keeps the table. |
| Terminal.Term.EraseChars | static/term.js:1549-1558 | ECH stores `Screen.EraseChars` at the unwrapped row, or reports the throw and keeps the table. |
| Terminal.Term.InsertLines | static/term.js:1496-1513 | IL stores `Screen.InsertLines`, keeping any turns made before a throw. |
| Terminal.Term.DeleteLines | static/term.js:1517-1532 | DL as written stores `Screen.DeleteLinesAsWritten`, keeping the turns made before a throw. |
| Terminal.Term.CursorBackwardTab | static/term.js:1977-1996 | CBT stores `Screen.BackTab` and its column, including the column change made before a throw. |
| Terminal.Term.CursorForwardTab | static/term.js:1941-1943 | CHT always throws, because it reads an undeclared variable. |
| Terminal.Term.CharAttributes | static/term.js:1381-1403 | SGR sets `curAttr` to `Sgr.CharAttributes` of the old attribute and the parameter list. |
| Terminal.Term.DeviceStatus | static/term.js:1426-1439 | DSR 5 appends `ESC [ 0 n` to the queue, and DSR 6 appends the 1-based cursor report. Other codes append nothing. |
| Terminal.Term.ScrollUp | static/term.js:1946-1948 | SU moves the viewport back by `Motion.ScrollUpBy` rows. |
| Terminal.Term.ScrollDown | static/term.js:1951-1953 | SD moves the viewport forward by `Motion.ScrollDownBy` rows. |
| Terminal.Term.SetModeFirst | static/term.js:1753-1790 | One `setMode(params.shift())` removes the first code and applies it. `?25` shows the cursor. `?47`, `?1047` or `?1049` on the normal screen saves a snapshot and resets; any other code changes nothing beyond the shift. |
| Terminal.Term.SetMode | static/term.js:1753-1790 | SM empties the parameter list. `?25` in it shows the cursor. An alternate-screen code in it enters the alternate screen once, when the normal screen is showing. |
| Terminal.Term.ResetModeFirst | static/term.js:1872-1912 | One `resetMode(params.shift())` removes the first code and applies it. `?25` hides the cursor. An alternate-screen code on the alternate screen restores the saved snapshot and forgets it. |
| Terminal.Term.ResetMode | static/term.js:1872-1912 | RM empties the parameter list. `?25` in it hides the cursor. An alternate-screen code in it leaves the alternate screen once, restoring the snapshot. |
| Terminal.Term.Print | static/term.js:392-410 | A printable character leaves the fields as `Effects.Print` of the old ones: first a line feed to column 0 when the cursor is past the last column, then the packed cell at the wrapped row and the cursor one column on, or the throw. |
| Terminal.Term.SetParser | static/term.js:337-932 | Stores the recogniser's fields and changes no other field. |
| Terminal.Term.Perform | static/term.js:339-932 | Running the handler `Parser.Scan` chose leaves the fields as `Effects.Perform` of the old ones. |
| Terminal.Term.PerformSimple | static/term.js:339-490 | The handlers outside control sequences that cannot throw leave the fields as `Effects.PerformSimple` of the old ones. |
| Terminal.Term.PerformControl | static/term.js:525-929 | A control sequence leaves the fields as `Effects.PerformControl` of the old ones: its handler, then the prefix and postfix cleared unless it threw. |
| Terminal.Term.PerformInline | static/term.js:339-385 | NUL, BEL, CR, BS, TAB, ESC 7 and ESC 8 leave the fields as `Effects.PerformInline` of the old ones. |
| Terminal.Term.PerformFeed | static/term.js:351-364 | LF, VT, FF, ESC D and ESC E leave the fields as `Effects.PerformFeed` of the old ones. |
| Terminal.Term.Dispatch | static/term.js:525-929 | The switch on the final byte leaves the fields as `Effects.Dispatch` of the old ones. |
| Terminal.Term.DispatchMove | static/term.js:528-697 | The finals that move the cursor, set the region, or save and restore the cursor leave the fields as `Effects.DispatchMove` of the old ones. |
| Terminal.Term.DispatchDelete | static/term.js:620-631 | `P` and `X` leave the fields as `Effects.DispatchDelete` of the old ones. |
| Terminal.Term.DispatchTab | static/term.js:704-734 | `Z` and `I` leave the fields as `Effects.DispatchTab` of the old ones. |
| Terminal.Term.DispatchMode | static/term.js:670-681 | `h` and `l` leave the fields as `Effects.DispatchMode` of the old ones, that is SM or RM over the whole parameter list. |
| Terminal.Term.DispatchCursor | static/term.js:528-557 | `A`, `B`, `C`, `D` and `H` leave the fields as `Effects.DispatchCursor` of the old ones. |
| Terminal.Term.DispatchColumn | static/term.js:588-643 | `E`, `F`, `G`, `` ` `` and `a` leave the fields as `Effects.DispatchColumn` of the old ones. |
| Terminal.Term.DispatchRow | static/term.js:652-669 | `d`, `e` and `f` leave the fields as `Effects.DispatchRow` of the old ones. |
| Terminal.Term.DispatchRegion | static/term.js:684-699 | `r`, `s` and `u` leave the fields as `Effects.DispatchRegion` of the old ones. |
| Terminal.Term.DispatchErase | static/term.js:559-588 | `J`, `K` and `@` leave the fields as `Effects.DispatchErase` of the old ones. |
| Terminal.Term.DispatchLines | static/term.js:608-619 | `L` and `M` leave the fields as `Effects.DispatchLines` of the old ones. |
| Terminal.Term.DispatchOther | static/term.js:567-728 | `m`, `n`, `S`, `T` and the finals that do nothing leave the fields as `Effects.DispatchOther` of the old ones. |
| Terminal.Term.SnapToLive | static/term.js:330-334 | On entry, `write` puts the viewport on the live screen, `ydisp == ybase`, and changes no other field. |
| Terminal.Term.WriteStep | static/term.js:336-932 | One turn of the loop moves to a later code unit, and what the loop makes of the rest of the string is unchanged by the turn; a throw is the loop's outcome at this code unit. |
| Terminal.Term.Write | static/term.js:317-940 | `write` leaves the fields and the outcome as `Effects.Write` of the old fields says, and keeps the recogniser's fields in range. When every handler returns, the recogniser ends as `Parser.Run` over the whole string says; otherwise it stops at a code unit inside the string. |

## Left out

- Rendering (`refresh`, `getRows`, the DOM table, `refreshStart`/`refreshEnd`), keyboard and mouse input, `cursorBlink`, `showCursor` and the bell: these are I/O. The model keeps only the state they read.
- The colour tables, `isMac`, `handler`, `keyState` and `keyStr`: these are used only by rendering and input.
- `convertEol` and `cursorState`: every code path that could set `convertEol` to true is commented out, so it is always false; `cursorState` only drives the blink.
- 32-bit wrap-around of the JavaScript bitwise operators: every attribute, character and cell value in the model fits the operands without wrapping, and the coordinates are unbounded integers.
- `Terminal.Term.HVPosition`: `NaN`, which arises only in HVP with one parameter, is not modelled. `Terminal.Term.HVPosition`, `Effects.DispatchRow` and so `Term.Write` use the corrected column 0 there, and the as-written `NaN` column is stated only by `Motion.HvpColumnAsWritten` (see "## Findings"). Parameters are otherwise integers, as the recogniser produces them. They are unbounded in the model, whereas the source's `currentParam * 10 + ch - 48` is a double and is exact only up to 2^53.
- `sendDeviceAttributes` (CSI c): it returns before doing anything. It is dispatched as a no-op.
- `initMouseTracking` and `resetTitleModes`: their bodies are empty. CSI T with the prefix `>` or with several parameters is dispatched as a no-op.
- `softReset` (CSI ! p): the recogniser never stores the prefix `!`, so the case cannot be reached. `Parser.RunWellformed` proves this.
- `Terminal.Term.CursorForwardTab`: it states only that the handler throws, since its body reads an undeclared variable and does nothing else.
- IL and ESC M on a ring whose live screen wraps round the end of the table: the source inserts the empty array at the unwrapped index `y + ybase` and removes at an index past the table's end, so the table grows by one without a throw. `LineLaws.WrappedOpenRowGrows` states this as written, on one such ring. No corrected version is given, because the source does not show what these handlers should do on a wrapped ring.
- `Terminal.Term.CursorCharAbsolute`: it keeps the source's missing `- 1` and missing clamp. With no statement of intent in the source, this is not claimed as a finding.
- `Terminal.Term.constructor`: it requires `rows >= 1`, because `reset`'s `while (j--)` never ends when `rows` is 0. It also requires `cols >= 1`, which is stricter than the source: with no columns, `blankLine()` is an empty row and the source still runs.
- `defAttr`: modelled as the constant `Cells.DefAttr`, because the source never assigns it after the constructor.
- The table loops (`EraseRow`, `InsertLinesTable` and the others): these are methods on `seq` values that the class then stores. They are not in-place updates of a shared array, so aliasing between `lines` and a snapshot of the normal screen is not modelled. The source never mutates a snapshot.
- The line-count laws hold only for tidy states: the table keeps `currentHeight` entries only while every handler stays inside it. `scroll` and the corrected DCH and DL keep that. DCH and DL as written need not, and neither do IL and ESC M on a wrapped ring, so no law about the live screen is stated for a state they leave.
- `LineLaws.InsertLinesFlat`, `LineLaws.DeleteLinesFlat`: these laws are proved for an unwrapped screen (`ybase + rows <= currentHeight`) in the default scroll region. On a wrapped ring or with a smaller region, the handlers' effect is still fully given by `Screen.InsertLines` and `Screen.DeleteLinesAsWritten` (or the corrected `Screen.DeleteLines`), but no live-screen law is stated.
- The `Terminal.Term.Dispatch*` helpers and the matching `Effects.Dispatch*` functions split the final-byte `switch` into groups only to keep each proof small. Together they are that one `switch`.
- The console logging of unknown sequences: it is output only.

## Findings

| source | as written | input that shows it | evidently intended | confidence | as-written member | corrected member |
|---|---|---|---|---|---|---|
| static/term.js:1656-1669 | HVP sets `x = params[1] - 1` even when there is no second parameter, so `x` becomes `NaN` | `ESC [ 5 f` (one parameter) | A missing column is read as 1, so `x = 0`, as CUP does | high, not executed | Motion.HvpColumnAsWritten, Motion.HvpOneParameter | Motion.HvpColumn, Motion.HvpTwoParameters |
| static/term.js:1517-1532 | `deleteLines` inserts the empty array at `j + 1` but erases row `j`. The old bottom row is blanked, and an empty array with no cells is left at the region's bottom | `ESC [ M` on a tidy 24-row screen with the cursor on row 0 | A blank row of `cols` cells enters at the bottom, and the other rows move up intact | high, not executed | Screen.DeleteLinesAsWritten, LineLaws.CloseRowAsWrittenFlat, LineLaws.DeleteLineBottomDiffers | Screen.DeleteLines, LineLaws.DeleteLinesFlat |
| static/term.js:1536-1545 | `deleteChars` pushes each blank onto `this.lines`, the line table, instead of onto the cursor's row. The row shrinks and the table gains numbers | `ESC [ P` on a tidy screen with the cursor at column 0 | The blank goes onto the row, so the row keeps `cols` cells | high, not executed | Screen.DeleteCharsAsWritten, ScreenLaws.DeleteCharsAsWrittenTidy | Screen.DeleteChars, ScreenLaws.DeleteCharsTidy |
