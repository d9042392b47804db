# fyne-nvim screen model

fyne-nvim is a Neovim front end built on the fyne toolkit. Its widget keeps
a screen model: a ragged grid of text cells, each a rune with a foreground
and background colour, plus a cursor. Neovim's redraw events change the
grid: grid_line writes runs of cells, and scrolling copies a rectangle up or
down. The renderer paints an overlay on the cursor cell. The next cursor
move within the same row restores that cell's colours; a move to another
row leaves the overlay in place. The widget also
turns key presses into Neovim key-notation strings such as `<C-x>` or
`<CR>`.

This project models that screen model from two revisions of the program.
Each revision is modelled on its own:

- **Newer revision, package `nvim`.**
  - `output.dfy`: class `Output.NeoVim`, covering fillGrid, ClearGrid,
    ScrollGrid, MoveGridCursor, WriteGridLine/writeRune and gridStyleFromHL,
    plus refreshCursor from the renderer.
  - `keymap.dfy`: the key and modifier tables.
  - `input.dfy`: TypedRune, TypedKey and TypedShortcut, each modelled as the
    string it sends to Neovim.
- **Older revision, package `main`.**
  - `legacy.dfy`: class `Legacy.NeoVim`, with its local-echo writeRune,
    TypedRune and TypedKey.
  - `events.dfy`: the `HandleNvimEvent` tag dispatcher.
  - `keys.dfy`: the older key table.
- **Shared.**
  - `go.dfy`: the Go language facts both revisions rely on (byte, rune
    conversion, the first byte of a string, bitwise or).
  - `fyne.dfy`: the toolkit types both revisions use.
  - `growth.dfy`: fillGrid's growth loops and the cell replacement that
    writeRune performs in both revisions.

The grid is a `seq<seq<Cell>>` field that the methods reassign. Most
methods are proved against a function on the old grid:

- `Filled` for fillGrid;
- `PutCell` for writeRune, in both revisions;
- `ScrolledUp`/`ScrolledDown` for the two loops of ScrollGrid, which follow
  the loops' row order;
- `LineApplied`/`RunApplied` for grid_line;
- `Echoed` for the loop of the older put event, one writeRune per group.

Lemmas then state the promised properties of those functions cell by cell.

Behaviours of the code as written that the model keeps:

- ScrollGrid never blanks the rows the text moved away from.
- For a negative count `-k`, ScrollGrid's loop stops before row `top + k`
  because of its strict `>`, so that row keeps its text.
- A cell whose text is longer than one byte is written twice at the same
  column, first its first byte and then a space. The column ends up holding
  a space, and the next column is not touched.
- A sentinel colour is replaced by defaultHL's colour when a cell is
  written. So a stored style holds the sentinel only when defaultHL's own
  colour is the sentinel.
- A cursor move to another row does not restore the colours of the cell
  the overlay was painted on, so the overlay stays in the grid.
- An out-of-range modifier value gives an empty prefix, so the shortcut
  sends `<x>`.

## Model

| member | source | states |
|---|---|---|
| Go.BitOr | keymap.go:44-54 | Go's bitwise or on non-negative values: the lowest bit is set exactly when either operand has it, the result lies between the larger operand and the sum, and or-ing with 0 or with the operand itself gives the operand back |
| Go.Utf8LeadByte | input.go:51 | the byte `KeyName[0]` reads: the character itself for ASCII, a lead byte of at least 0xC2 otherwise |
| Growth.Filled | output.go:6-20 | after fillGrid the grid has row `row`, and that row has column `col`, each exactly as long as needed and no shorter than before |
| Growth.FilledShape | output.go:6-20 | fillGrid changes no existing cell; appended rows other than `row` are empty; appended cells of `row` are the padding cell; a grid that already has (row, col) is returned unchanged |
| Growth.FilledIdempotent | output.go:6-20 | fillGrid twice is fillGrid once, and every cell that existed keeps its place and value |
| Growth.PutCell | output.go:105-115 | writeRune's result has the written cell at (row, col) and the grown extents |
| Growth.PutCellShape | output.go:105-115 | writeRune changes only (row, col) and the padding cells it appends; the padding has the written cell's style |
| Output.NeoVim.FillGrid | output.go:6-20 | the new grid is `Filled` of the old one with spaces in gridStyleFromHL(hl); an in-bounds call changes nothing |
| Output.NeoVim.ClearGrid | output.go:23-29 | every rune becomes a space; every style, every row length and the row count stay |
| Output.NeoVim.ScrollRow | output.go:36-41 | the inner loop (one pass of the outer loop) pads row `row` and copies columns [left, right) of row `row + n` into it |
| Output.NeoVim.ScrollGrid | output.go:32-54 | the new grid is `Scrolled` of the old one, with the upward and downward loops as written |
| Output.NeoVim.ScrollUp | output.go:33-42 | rows top .. bot-n-1, in that order, each take columns [left, right) from n rows below, as the loop leaves them |
| Output.NeoVim.ScrollDown | output.go:43-53 | rows bot-1 down to top-n+1 (strict `>`), each take columns [left, right) from -n rows above |
| Output.NeoVim.MoveGridCursor | output.go:58-75 | a same-row move restores the saved colours on the old cell and keeps its rune; a move to another row changes no cell; the saved colours become those of the new cell after the restore; the cursor moves; a move onto the same cell keeps the saved colours |
| Output.NeoVim.WriteRune | output.go:105-115 | the grid becomes `PutCell` of the old grid with `r` in the style of highlight `hlId`, defaultHL for an unknown id |
| Output.NeoVim.WriteGridLine | output.go:78-102 | the grid becomes the payload applied cell by cell; the highlight id starts at 0 and carries over; each cell is repeated by its count, 1 by default; the column after the call is `col` plus the sum of the repeat counts |
| Output.NeoVim.WriteRun | output.go:89-100 | a cell repeated `repeat` times from `col` returns the column `col + repeat` (no move for a count below 1), with one repetition per column |
| Output.NeoVim.WriteHead | output.go:95-98 | one repetition writes the first byte at `col` and, for a longer text, a space at the same column |
| Output.NeoVim.RefreshCursor | render.go:39-56 | inside the grid, the cursor cell keeps its rune and takes the colours RGBA{200,200,200,180} on RGBA{255,255,255,180}, and no other cell changes; outside the grid nothing changes |
| Output.NeoVim.OverlayIsUndone | render.go:39-56 | moving to column a, painting the overlay and moving on within the row leaves cell a with its rune and the colours it had before the overlay |
| Output.ScrollRowStep | output.go:36-41 | padding then copying one cell extends the copied block by one column, and the cell read exists |
| Output.ScrollUpStep | output.go:35-40 | each upward pass reads a row the loop has not yet written, and that row is long enough |
| Output.ScrollDownStep | output.go:45-50 | each downward pass reads a row the loop has not yet written, and that row is long enough |
| Output.RowCopiedIn | output.go:36-41 | after the inner loop, row `row` holds the copied columns over its padded old content |
| Output.RowCopiedOut | output.go:36-41 | the inner loop on row `row` changes no other row |
| Output.ScrolledUpHeight | output.go:33-42 | the upward loop removes no rows, and it adds rows only up to the last row it writes |
| Output.ScrolledDownHeight | output.go:43-53 | the downward loop removes no rows, and it adds rows only up to row hi - 1, the first row it writes |
| Output.ScrolledUpKept | output.go:33-42 | rows outside the written range keep their content |
| Output.ScrolledUpMoved | output.go:33-42 | each written row holds the copied columns of the ORIGINAL row n below, because the source row is written later or never |
| Output.ScrolledDownKept | output.go:43-53 | rows outside the written range keep their content |
| Output.ScrolledDownMoved | output.go:43-53 | each written row holds the copied columns of the ORIGINAL row -n above |
| Output.ScrollMovesCells | output.go:32-54 | for n != 0, cell [r][c] of a target row in [left, right) becomes the old cell [r+n][c] |
| Output.ScrollKeepsCells | output.go:32-54 | every existing cell outside the moved block is kept: rows bot-n..bot-1 for n > 0, rows top..top+k for n = -k including top+k, columns outside [left, right), and every cell for n = 0 |
| Output.ScrolledHeight | output.go:32-54 | an in-bounds upward scroll keeps the row count; a downward one grows it to bot exactly when it writes a row |
| Output.StyleIsResolved | output.go:123-129 | with defaultHL's colours set, a stored style never holds the sentinel |
| Output.UnknownIdUsesDefault | output.go:107-110 | an id missing from the table is written in defaultHL's colours |
| Output.RunStep | output.go:94-100 | the writes of k repetitions are one repetition's writes followed by the other k-1 from the next column |
| Output.ApplyWritesAppend | output.go:94-100 | applying two write sequences one after the other is applying their concatenation |
| Output.RunAppliedWrites | output.go:94-100 | a run applied repetition by repetition equals its writeRune calls applied in order |
| Output.LineAppliedWrites | output.go:78-102 | a payload applied run by run equals its writeRune calls applied in order |
| Output.RunHeadShape | output.go:94-98 | one repetition leaves the cell's first byte, or a space for a longer text, at `col`; it pads the row and changes no other cell |
| Output.RunAppliedFrame | output.go:94-100 | repetitions over [col, col+k) leave every cell of the row outside that range as it was, and never shrink the grid or the row |
| Output.RunAppliedOtherRows | output.go:94-100 | repetitions on row `row` leave every other row as it was |
| Output.RunResult | output.go:94-100 | k repetitions leave columns [col, col+k) holding the shown rune in the cell's style |
| Output.RunWritesShape | output.go:94-99 | one-byte text gives k writes at consecutive columns; longer text gives 2k writes, byte then space at each column |
| Output.RunWritesInRange | output.go:94-100 | every write of a run lands in [col, col+k) |
| Output.LineWritesInRange | output.go:78-102 | every write of a payload lands in [col, col + sum of repeats) |
| Output.HLInForceNearest | output.go:79-87 | the highlight id in force for payload cell j is the cell's own id when it has one, otherwise the one in force for cell j-1, and 0 before the first cell |
| Output.PaintedCellIs | output.go:82-98 | payload cell j leaves its first byte, or a space for a longer text, in the style of the id in force for it |
| Output.ColumnOfPrefix | output.go:89-99 | payload cell j starts at the sum of the repeat counts of the cells before it |
| Output.ColumnOfNext | output.go:89-99 | the next payload cell starts after this cell's repeat count |
| Output.LineFrame | output.go:78-102 | a payload leaves every cell of the row outside [col, col + sum of repeats) as it was, and never shrinks the grid or the row |
| Output.LineOtherRows | output.go:78-102 | a payload on row `row` leaves every other row as it was |
| Output.LineCellResult | output.go:78-102 | every column within payload cell j's run holds the cell that payload cell j paints |
| Output.LineResult | output.go:78-102 | for every payload cell j, columns [col + sum of repeats before j, col + sum of repeats up to j) exist and all hold the cell payload cell j paints |
| Output.GridLineExample | output.go:85-92 | [["H",5,1],["i"]] writes "Hi" in highlight 5, the second cell keeping the first one's id; [["a",1,2],["b"]] writes "aab"; a cell with no id before it uses id 0 |
| KeyMap.FunctionKeyName | keymap.go:21-32 | the names of the function keys, "F1" to "F12" |
| KeyMap.KeyMapBracketed | keymap.go:7-33 | every key-table value starts with '<', ends with '>' and is at least four characters long |
| KeyMap.ReturnAndEnterAreCR | keymap.go:8-33 | Return and the keypad Enter both map to "<CR>" |
| KeyMap.FunctionKeysMapToThemselves | keymap.go:21-32 | Fi maps to "<Fi>" for every i from 1 to 12 |
| KeyMap.CombinedKeys | keymap.go:44-54 | the combined modifier keys are the values 3, 5, 6, 7 and 9 to 15 |
| KeyMap.FlagsAreDistinctBits | keymap.go:39-54 | or-ing any set of the four flags gives the sum of their bits, so each set has its own value |
| KeyMap.ModifierMapDomain | keymap.go:37-55 | the modifier table has an entry exactly for the values 1 to 15, one per non-empty set of modifiers |
| KeyMap.ModifierMapPrefixes | keymap.go:39-54 | the entry for each non-empty set is its letters in the order S, A, C, M, each followed by '-' |
| OldKeys.SameAsNewerTable | keys.go:6-34 | the older key table is entry for entry the newer one |
| OldKeys.ValuesBracketed | keys.go:7-33 | every value of the older table is bracketed |
| OldKeys.EditingKeys | keys.go:7-33 | Return and Enter map to "<CR>", Escape to "<Esc>", BackSpace to "<BS>" |
| OldKeys.FunctionKeys | keys.go:21-32 | Fi maps to "<Fi>" in the older table |
| Input.TypedShortcut | input.go:48-61 | a custom shortcut always sends, and any other kind of shortcut sends nothing |
| Input.TypedKeyIsNotation | input.go:36-38 | a typed key sends "" or one bracketed notation |
| Input.ShortcutWithModifiers | input.go:48-60 | a shortcut with held modifiers sends "<" + the S-A-C-M prefix + its character + ">" |
| Input.InputPathsDiffer | input.go:29-38 | a typed rune sends one character, a typed key sends "" or a bracketed name of at least four characters, and a shortcut sends a bracketed string of at least three, so a typed rune never sends what a key or a shortcut sends |
| Input.ShortcutCharOfName | input.go:51-56 | Space gives ' '; a name that starts with an ASCII character gives that character, so the "@" case agrees with the general one; any other first character gives only its UTF-8 lead byte, at least 0xC2 |
| Input.ShortcutWithUnlistedModifier | input.go:58-59 | a modifier value missing from the table gives no prefix: "<x>" |
| Input.ShortcutIsNotation | input.go:48-60 | every custom shortcut sends a bracketed notation with the character just before the '>' |
| Input.ShortcutExamples | input.go:48-60 | Control+Space sends "<C- >"; Shift+Alt+A sends "<S-A-A>" |
| Legacy.EchoedStep | nvim.go:98-127 | one more echoed rune goes in the column after the runes already echoed |
| Legacy.EchoedPrefixStep | events.go:114-118 | writing rune i right after runes 0 .. i-1 leaves runes 0 .. i echoed |
| Legacy.NeoVim.constructor | nvim.go:35-48 | New starts with an empty grid and the cursor at (0, 0) |
| Legacy.NeoVim.WriteRune | nvim.go:105-127 | grows the rows to the cursor row and that row to the cursor column with white-on-black spaces; stores the rune white on black at the cursor; moves the cursor one column right (the writeRune in events.go is the same code) |
| Legacy.NeoVim.TypedRune | nvim.go:98-102 | a typed rune is exactly writeRune |
| Legacy.NeoVim.TypedKey | nvim.go:131-136 | Return moves the cursor to column 0 of the next row and leaves the grid unchanged; every other key changes nothing |
| Legacy.NeoVim.TypeLineReturnOne | nvim.go:98-136 | typing any runes, then Return, then one more rune: the grid is the runes echoed from the cursor followed by the last rune written at column 0 of the next row; the runes sit side by side from the cursor, the last rune starts the next row, and the cursor ends at column 1 of that row |
| Legacy.LineThenNextRow | nvim.go:105-136 | a rune written at column 0 of the next row keeps the echoed runes of the row above side by side |
| Legacy.EchoedCells | nvim.go:105-127 | runes echoed from (row, col) occupy columns col, col+1, ... white on black, and every other cell and row is kept |
| LegacyEvents.PutRunes | events.go:114-118 | put writes one rune per group: the first byte of the group's text, in order |
| LegacyEvents.PutAll | events.go:112-118 | the loop over the put groups echoes their runes from the cursor and moves the cursor right by the number of groups |
| LegacyEvents.PutCells | events.go:112-118 | after put, column cursorCol + i of the cursor row holds group i's first byte white on black, and every other existing cell is kept |
| LegacyEvents.HandleNvimEvent | events.go:9-207 | cursor_goto sets the cursor to the two entries of its first parameter array, 0 for an entry that is not an int64, and keeps the grid; put echoes its groups' runes and moves the cursor right by their number; every other tag changes nothing |

## Left out

- Process and RPC plumbing is not modelled: starting Neovim (`startNeovim`), attaching the UI, registering the redraw handler, and closing the engine.
- Widget plumbing is not modelled either: `Resize`, `CreateRenderer`, `Layout`, `Objects`, `Refresh`, `FocusGained`/`FocusLost`, and the application's `main`.
- `MinSize`: it works on float sizes and on helpers that are not part of this model.
- Concurrency between the redraw thread and the UI thread is not modelled, and neither is logging.
- `intOrUintToInt`, the `highlight` type, `defaultHL` and `RGBA_SENTINEL` are not part of this model. Highlight ids and repeat counts arrive as decoded integers. defaultHL and the highlight table are fields. The sentinel is a `Color` constructor of its own, so it never equals a real colour.
- The newer revision's event dispatcher is not part of this model. WriteGridLine takes its payload as already-decoded cells.
- fyne's `TextGrid.SetCell` is modelled as replacing a cell that exists. Its behaviour outside the grid is library code.
- Output.NeoVim.RefreshCursor: outside the grid the model leaves the grid unchanged, where the source hands an out-of-range cell to `SetCell`.
- Output.NeoVim.MoveGridCursor: requires the positions it reads to be inside the grid. The source reads them without a check and panics otherwise.
- Output.NeoVim.FillGrid: requires a non-negative row, because a negative row panics in the source. A negative column is accepted and adds no cells, as the source's loop does.
- Output.NeoVim.WriteRune and Output.NeoVim.WriteGridLine require a non-negative row and column. A negative row panics in the source, and a negative column reaches `SetCell`.
- Output.NeoVim.WriteGridLine: requires every cell's text to be non-empty, and so do WriteRun and WriteHead. The source reads the first byte of the text at output.go:83 and panics on an empty text. Neovim's grid_line event uses the empty text for the right half of a double-width character, so that crash is not modelled.
- Input.TypedShortcut: requires a non-empty key name, and so do ShortcutChar and the shortcut lemmas. The source reads `KeyName[0]` at input.go:51 before any check, so an empty name panics.
- Output.NeoVim.ScrollGrid: requires that every row it reads exists and is long enough, as stated by `ScrollInBounds`. The source panics otherwise.
- Legacy.NeoVim.WriteRune: requires a non-negative cursor. A negative cursor row panics in the source. A negative cursor column makes the padding loop do nothing and reaches `SetCell`, which is library code, and the cursor still advances.
- LegacyEvents.HandleNvimEvent: requires an event the source can read without panicking, as stated by `Readable`: a non-empty event, a two-entry position for cursor_goto, and every put group an array led by a non-empty string. A put with groups also requires a non-negative cursor, as Legacy.NeoVim.WriteRune does.
- KeyMap.ModifierMapDomain: the modifier table's size (15 entries) is not stated as a count. The lemma states exactly which keys the table has instead.
- The key table's size (27 entries, 26 distinct values) is not stated as a count. The solver has to tell the keys of a 27-entry map display apart pair by pair to count them, and that proof does not fit this project's resource limit. KeyMapBracketed, ReturnAndEnterAreCR and FunctionKeysMapToThemselves state the entries themselves.
- Runes are Dafny characters. Every place the source takes a first byte (`s[0]`, `r[0]`, `KeyName[0]`) takes a first byte here too, and display width is not modelled.
