/**
 * The screen model of the nvim package: the grid of cells a NeoVim widget
 * keeps, grown on demand, cleared, scrolled and written by grid_line events,
 * with the cursor position and the colours of the cell under the cursor.
 * The methods of class NeoVim change the grid in place; the functions before
 * it say what each change is, and the lemmas after it what follows.
 */
module Output {
  import opened Go
  import opened Fyne
  import opened Growth

  /** The two colours of a highlight that the grid uses (fields Fg and Bg). */
  datatype Highlight = Highlight(fg: Color, bg: Color)

  /**
   * gridStyleFromHL: the cell style of a highlight. A colour equal to the
   * sentinel is replaced by the default highlight's colour, read now.
   */
  function GridStyleFromHL(hl: Highlight, defaultHL: Highlight): (s: Style)
    ensures hl.fg != Sentinel ==> s.fg == hl.fg
    ensures hl.fg == Sentinel ==> s.fg == defaultHL.fg
    ensures hl.bg != Sentinel ==> s.bg == hl.bg
    ensures hl.bg == Sentinel ==> s.bg == defaultHL.bg
  {
    Style(if hl.fg == Sentinel then defaultHL.fg else hl.fg,
          if hl.bg == Sentinel then defaultHL.bg else hl.bg)
  }

  /** The highlight writeRune uses for an id: the table's entry, or defaultHL for an unknown id. */
  function LookupHL(table: map<int, Highlight>, id: int, defaultHL: Highlight): Highlight
  {
    if id in table then table[id] else defaultHL
  }

  /** The style writeRune stores for highlight id `id`. */
  function StyleOf(table: map<int, Highlight>, defaultHL: Highlight, id: int): Style
  {
    GridStyleFromHL(LookupHL(table, id, defaultHL), defaultHL)
  }

  /** Row `dst` after ScrollGrid's inner loop copied columns [left, right) of `src` into it. */
  function CopiedRow(dst: seq<Cell>, src: seq<Cell>, left: int, right: int, pad: Cell): seq<Cell>
  {
    seq(Max(|dst|, right), c =>
      if left <= c < right then (if 0 <= c < |src| then src[c] else pad)
      else if 0 <= c < |dst| then dst[c] else pad)
  }

  /**
   * The grid after ScrollGrid's inner loop ran on row `row` with padding cell
   * `pad`: the row is padded to exist, then columns [left, right) of row
   * `row + n` (padded when short) are copied into it. With left >= right the
   * loop does not run.
   */
  function RowCopied(g: Grid, row: int, n: int, left: int, right: int, pad: Cell): Grid
  {
    if left < right then
      seq(Max(|g|, row + 1), i =>
        if i == row then CopiedRow(RowOf(g, row), RowOf(g, row + n), left, right, pad) else RowOf(g, i))
    else g
  }

  /**
   * The grid after ScrollGrid's outer loop for n > 0 ran on rows lo, lo + 1,
   * ..., hi - 1, in that order. Each row reads row r + n of the grid as it
   * is at that moment.
   */
  function ScrolledUp(g: Grid, lo: int, hi: int, n: int, left: int, right: int, pad: Cell): Grid
    decreases hi - lo
  {
    if hi <= lo then g
    else RowCopied(ScrolledUp(g, lo, hi - 1, n, left, right, pad), hi - 1, n, left, right, pad)
  }

  /**
   * The grid after ScrollGrid's outer loop for n <= 0 ran on rows hi - 1,
   * hi - 2, ..., lo, in that order.
   */
  function ScrolledDown(g: Grid, lo: int, hi: int, n: int, left: int, right: int, pad: Cell): Grid
    decreases hi - lo
  {
    if hi <= lo then g
    else RowCopied(ScrolledDown(g, lo + 1, hi, n, left, right, pad), lo, n, left, right, pad)
  }

  /**
   * The grid after ScrollGrid(top, bot, left, right, n): for n > 0 the rows
   * [top, bot - n) take columns [left, right) from n rows below; otherwise the
   * rows (top - n, bot) take them from -n rows above.
   */
  function Scrolled(g: Grid, top: int, bot: int, left: int, right: int, n: int, pad: Cell): Grid
  {
    if n > 0 then ScrolledUp(g, top, bot - n, n, left, right, pad)
    else ScrolledDown(g, top - n + 1, bot, n, left, right, pad)
  }

  /**
   * What ScrollGrid needs to run without an index out of range: every row it
   * writes is a row index, and every row it reads from (when n != 0) exists
   * and has cells up to `right`.
   */
  predicate ScrollInBounds(g: Grid, top: int, bot: int, left: int, right: int, n: int)
  {
    left < right ==>
      if n > 0 then
        top < bot - n ==>
          0 <= top && 0 <= left && bot <= |g| && forall s :: top + n <= s < bot ==> right <= |g[s]|
      else
        top - n + 1 < bot ==>
          0 <= top + 1 && 0 <= left && (n < 0 ==> bot + n <= |g| && forall s :: top < s < bot + n ==> right <= |g[s]|)
  }

  /** One grid_line cell: its text, and the highlight id and repeat count when present. */
  datatype LineCell = LineCell(text: seq<byte>, hlId: Option<int>, repeat: Option<int>)

  /** One call of writeRune(row, col, rune, hlId) made by WriteGridLine. */
  datatype RuneWrite = RuneWrite(col: nat, rune: char, hlId: int)

  /** The number of times a cell is written: its repeat count (default 1); a count below 1 writes nothing. */
  function Repeat(c: LineCell): nat
  {
    match c.repeat
    case None => 1
    case Some(k) => if k > 0 then k else 0
  }

  /** The highlight id in force for a cell: its own, or the one carried over from before. */
  function CarriedHL(c: LineCell, last: int): int
  {
    match c.hlId
    case None => last
    case Some(h) => h
  }

  /** The sum of the repeat counts of `cells`. */
  function TotalRepeat(cells: seq<LineCell>): nat
  {
    if cells == [] then 0 else Repeat(cells[0]) + TotalRepeat(cells[1..])
  }

  /** Every cell of the payload has a non-empty text (WriteGridLine reads its first byte). */
  ghost predicate TextsNonEmpty(cells: seq<LineCell>)
    decreases |cells|
  {
    cells == [] || (|cells[0].text| > 0 && TextsNonEmpty(cells[1..]))
  }

  /**
   * The writes of one cell repeated `k` times from column `col`: the first
   * byte of the text, and, when the text is longer than one byte, a space at
   * the SAME column right after it.
   */
  function RunWrites(text: seq<byte>, col: nat, hlId: int, k: nat): seq<RuneWrite>
    requires |text| > 0
    decreases k
  {
    if k == 0 then []
    else
      [RuneWrite(col, ByteRune(text[0]), hlId)]
      + (if |text| > 1 then [RuneWrite(col, ' ', hlId)] else [])
      + RunWrites(text, col + 1, hlId, k - 1)
  }

  /**
   * The writes WriteGridLine makes for `cells` from column `col`, with `last`
   * the highlight id carried into the first cell.
   */
  function LineWrites(cells: seq<LineCell>, col: nat, last: int): seq<RuneWrite>
    requires TextsNonEmpty(cells)
  {
    if cells == [] then []
    else
      var h := CarriedHL(cells[0], last);
      var k := Repeat(cells[0]);
      RunWrites(cells[0].text, col, h, k) + LineWrites(cells[1..], col + k, h)
  }

  /** The grid after the writes `ws` on row `row`, in order. */
  function ApplyWrites(g: Grid, row: int, ws: seq<RuneWrite>, table: map<int, Highlight>, defaultHL: Highlight): Grid
    requires 0 <= row
    decreases |ws|
  {
    if ws == [] then g
    else ApplyWrites(PutCell(g, row, ws[0].col, Cell(ws[0].rune, StyleOf(table, defaultHL, ws[0].hlId))),
                     row, ws[1..], table, defaultHL)
  }

  /** What the cursor overlay looks like. */
  const CursorFg: Color := RGBA(200, 200, 200, 180)
  const CursorBg: Color := RGBA(255, 255, 255, 180)

  /**
   * The cell refreshCursor paints at (row, col): the rune already there when
   * the position is inside the grid, a space otherwise, in the cursor colours.
   */
  function CursorOverlay(g: Grid, row: int, col: int): (c: Cell)
    ensures c.style == Style(CursorFg, CursorBg)
    ensures 0 <= row < |g| && 0 <= col < |g[row]| ==> c.rune == g[row][col].rune
    ensures !(0 <= row < |g| && 0 <= col < |g[row]|) ==> c.rune == ' '
  {
    var currentRune :=
      if 0 <= row < |g| && 0 <= col < |g[row]| then g[row][col].rune else ' ';
    Cell(currentRune, Style(CursorFg, CursorBg))
  }

  class NeoVim {
    var rows: Grid
    var cursorRow: int
    var cursorCol: int
    var cursorCellFg: Color
    var cursorCellBg: Color
    /** n.hl, the highlight table. */
    var hl: map<int, Highlight>
    /** The package-level defaultHL. */
    var defaultHL: Highlight

    /** The padding cell fillGrid(row, col, defaultHL) appends. */
    function DefaultPad(): Cell
      reads this
    {
      Cell(' ', GridStyleFromHL(defaultHL, defaultHL))
    }

    /** fillGrid: make row `row` and column `col` of it exist; new cells are spaces in hl's style. */
    method FillGrid(row: int, col: int, h: Highlight)
      requires 0 <= row
      modifies this`rows
      ensures rows == Filled(old(rows), row, col, Cell(' ', GridStyleFromHL(h, defaultHL)))
      ensures |old(rows)| > row && |old(rows)[row]| > col ==> rows == old(rows)
    {
      while |rows| - 1 < row
        invariant |old(rows)| <= |rows| <= Max(|old(rows)|, row + 1)
        invariant forall i :: 0 <= i < |rows| ==> rows[i] == RowOf(old(rows), i)
      {
        rows := rows + [[]];
      }
      var cellStyle := GridStyleFromHL(h, defaultHL);
      ghost var start := rows[row];
      while |rows[row]| - 1 < col
        invariant |rows| == Max(|old(rows)|, row + 1)
        invariant forall i :: 0 <= i < |rows| && i != row ==> rows[i] == RowOf(old(rows), i)
        invariant |start| <= |rows[row]| <= Max(|start|, col + 1)
        invariant forall c :: 0 <= c < |rows[row]| ==>
                    rows[row][c] == if c < |start| then start[c] else Cell(' ', cellStyle)
      {
        rows := rows[row := rows[row] + [Cell(' ', cellStyle)]];
      }
      assert start == RowOf(old(rows), row);
      ghost var f := Filled(old(rows), row, col, Cell(' ', cellStyle));
      FilledShape(old(rows), row, col, Cell(' ', cellStyle));
      assert |rows[row]| == |f[row]|;
      forall i | 0 <= i < |rows|
        ensures rows[i] == f[i]
      {
        if i == row {
          assert |rows[i]| == |f[i]|;
        }
      }
    }

    /** ClearGrid: every rune becomes a space; styles and extents stay. */
    method ClearGrid()
      modifies this`rows
      ensures |rows| == |old(rows)|
      ensures forall i :: 0 <= i < |rows| ==> |rows[i]| == |old(rows)[i]|
      ensures forall i, j :: 0 <= i < |rows| && 0 <= j < |rows[i]| ==>
                rows[i][j] == Cell(' ', old(rows)[i][j].style)
    {
      var i := 0;
      while i < |rows|
        invariant |rows| == |old(rows)| && 0 <= i <= |rows|
        invariant forall k :: 0 <= k < |rows| ==> |rows[k]| == |old(rows)[k]|
        invariant forall k, j :: 0 <= k < i && 0 <= j < |rows[k]| ==> rows[k][j] == Cell(' ', old(rows)[k][j].style)
        invariant forall k :: i <= k < |rows| ==> rows[k] == old(rows)[k]
      {
        var j := 0;
        while j < |rows[i]|
          invariant |rows| == |old(rows)|
          invariant 0 <= j <= |rows[i]| == |old(rows)[i]|
          invariant forall k :: 0 <= k < |rows| && k != i ==> |rows[k]| == |old(rows)[k]|
          invariant forall k, j' :: 0 <= k < i && 0 <= j' < |rows[k]| ==> rows[k][j'] == Cell(' ', old(rows)[k][j'].style)
          invariant forall k :: i < k < |rows| ==> rows[k] == old(rows)[k]
          invariant forall j' :: 0 <= j' < j ==> rows[i][j'] == Cell(' ', old(rows)[i][j'].style)
          invariant forall j' :: j <= j' < |rows[i]| ==> rows[i][j'] == old(rows)[i][j']
        {
          rows := rows[i := rows[i][j := Cell(' ', rows[i][j].style)]];
          j := j + 1;
        }
        i := i + 1;
      }
    }

    /** The inner loop of ScrollGrid on one row: copy columns [left, right) of row `row + n` into row `row`. */
    method ScrollRow(row: int, n: int, left: int, right: int)
      requires left < right ==> 0 <= row && 0 <= left
      requires left < right && n != 0 ==> 0 <= row + n < |rows| && right <= |rows[row + n]|
      modifies this`rows
      ensures rows == RowCopied(old(rows), row, n, left, right, DefaultPad())
    {
      ghost var g := rows;
      var col := left;
      while col < right
        invariant col == left || left < col <= right
        invariant rows == RowCopied(g, row, n, left, col, DefaultPad())
      {
        ScrollRowStep(g, row, n, left, col, DefaultPad());
        FillGrid(row, col, defaultHL);
        var cell := rows[row + n][col];
        rows := rows[row := rows[row][col := cell]];
        col := col + 1;
      }
    }

    /**
     * ScrollGrid: move the region [top, bot) x [left, right) up by n rows
     * (n > 0, top to bottom) or down by -n rows (n <= 0, bottom to top,
     * stopping above row top - n). Rows written are padded first; rows left
     * behind keep their old cells.
     */
    method ScrollGrid(top: int, bot: int, left: int, right: int, n: int)
      requires ScrollInBounds(rows, top, bot, left, right, n)
      modifies this`rows
      ensures rows == Scrolled(old(rows), top, bot, left, right, n, DefaultPad())
    {
      if n > 0 {
        ScrollUp(top, bot, left, right, n);
      } else {
        ScrollDown(top, bot, left, right, n);
      }
    }

    /**
     * ScrollGrid for n > 0: rows top, top + 1, ..., bot - n - 1 in turn. The
     * name follows the text, which moves up; the view scrolls down.
     */
    method ScrollUp(top: int, bot: int, left: int, right: int, n: int)
      requires n > 0 && ScrollInBounds(rows, top, bot, left, right, n)
      modifies this`rows
      ensures rows == ScrolledUp(old(rows), top, bot - n, n, left, right, DefaultPad())
    {
      ghost var g := rows;
      var row := top;
      while row < bot - n
        invariant row == top || top < row <= bot - n
        invariant rows == ScrolledUp(g, top, row, n, left, right, DefaultPad())
      {
        ScrollUpStep(g, top, bot, left, right, n, row, DefaultPad());
        ScrollRow(row, n, left, right);
        assert rows == ScrolledUp(g, top, row + 1, n, left, right, DefaultPad());
        row := row + 1;
      }
      if bot - n <= top {
        assert rows == g;
      }
    }

    /**
     * ScrollGrid for n <= 0: rows bot - 1, bot - 2, ..., top - n + 1 in turn.
     * The name follows the text, which moves down; the view scrolls up.
     */
    method ScrollDown(top: int, bot: int, left: int, right: int, n: int)
      requires n <= 0 && ScrollInBounds(rows, top, bot, left, right, n)
      modifies this`rows
      ensures rows == ScrolledDown(old(rows), top - n + 1, bot, n, left, right, DefaultPad())
    {
      ghost var g := rows;
      var row := bot - 1;
      while row > top - n
        invariant row == bot - 1 || top - n <= row < bot - 1
        invariant rows == ScrolledDown(g, row + 1, bot, n, left, right, DefaultPad())
      {
        ScrollDownStep(g, top, bot, left, right, n, row, DefaultPad());
        ScrollRow(row, n, left, right);
        assert rows == ScrolledDown(g, row, bot, n, left, right, DefaultPad());
        row := row - 1;
      }
      if bot <= top - n + 1 {
        assert rows == g;
      }
    }

    /**
     * MoveGridCursor: on a move within one row, the old cursor cell gets back
     * the colours saved when the cursor arrived there; then the colours of
     * the new cell are saved and the cursor moves.
     */
    method MoveGridCursor(oldRow: int, oldCol: int, newRow: int, newCol: int)
      requires 0 <= newRow < |rows| && 0 <= newCol < |rows[newRow]|
      requires oldRow == newRow ==> 0 <= oldCol < |rows[oldRow]|
      modifies this`rows, this`cursorCellFg, this`cursorCellBg, this`cursorRow, this`cursorCol
      ensures oldRow == newRow ==>
                rows == old(rows)[oldRow := old(rows)[oldRow][oldCol :=
                          Cell(old(rows)[oldRow][oldCol].rune, Style(old(cursorCellFg), old(cursorCellBg)))]]
      ensures oldRow != newRow ==> rows == old(rows)
      ensures cursorCellFg == rows[newRow][newCol].style.fg && cursorCellBg == rows[newRow][newCol].style.bg
      ensures cursorRow == newRow && cursorCol == newCol
      ensures oldRow == newRow && oldCol == newCol ==>
                cursorCellFg == old(cursorCellFg) && cursorCellBg == old(cursorCellBg)
    {
      if oldRow == newRow {
        var r := rows[oldRow][oldCol].rune;
        var cellStyle := Style(cursorCellFg, cursorCellBg);
        rows := rows[oldRow := rows[oldRow][oldCol := Cell(r, cellStyle)]];
      }
      var newCell := rows[newRow][newCol];
      cursorCellFg := newCell.style.fg;
      cursorCellBg := newCell.style.bg;
      cursorRow := newRow;
      cursorCol := newCol;
    }

    /**
     * writeRune: store `r` at (row, col) in the style of highlight `hlId`,
     * growing the grid first with spaces in that style.
     */
    method WriteRune(row: int, col: int, r: char, hlId: int)
      requires 0 <= row && 0 <= col
      modifies this`rows
      ensures rows == PutCell(old(rows), row, col, Cell(r, StyleOf(hl, defaultHL, hlId)))
    {
      var h := LookupHL(hl, hlId, defaultHL);
      FillGrid(row, col, h);
      var cellStyle := GridStyleFromHL(h, defaultHL);
      rows := rows[row := rows[row][col := Cell(r, cellStyle)]];
    }

    /**
     * WriteGridLine: apply one grid_line payload from column `col`. The
     * highlight id starts at 0 and carries over between cells; each cell is
     * written Repeat times at consecutive columns. `end` is the column after
     * the last one written (the final value of the loop's column).
     */
    method WriteGridLine(row: int, col: int, cells: seq<LineCell>) returns (end: nat)
      requires 0 <= row && 0 <= col
      requires TextsNonEmpty(cells)
      modifies this`rows
      ensures rows == LineApplied(old(rows), row, cells, col, 0, hl, defaultHL)
      ensures end == col + TotalRepeat(cells)
    {
      ghost var target := LineApplied(rows, row, cells, col, 0, hl, defaultHL);
      var lastHL := 0;
      var c: nat := col;
      var rest := cells;
      while rest != []
        invariant TextsNonEmpty(rest)
        invariant LineApplied(rows, row, rest, c, lastHL, hl, defaultHL) == target
        invariant c + TotalRepeat(rest) == col + TotalRepeat(cells)
        decreases |rest|
      {
        var cell := rest[0];
        ghost var carried := lastHL;
        if cell.hlId.Some? {
          lastHL := cell.hlId.value;
        }
        var repeat := 1;
        if cell.repeat.Some? {
          repeat := cell.repeat.value;
        }
        ghost var before := rows;
        ghost var c0 := c;
        c := WriteRun(row, c, cell.text, lastHL, repeat);
        LineLoopStep(before, rows, row, rest, c0, c, carried, lastHL, hl, defaultHL, target);
        rest := rest[1..];
      }
      end := c;
    }

    /**
     * The inner loop of WriteGridLine: write one cell `repeat` times from
     * column `col` and return the column after it.
     */
    method WriteRun(row: int, col: nat, text: seq<byte>, hlId: int, repeat: int) returns (next: nat)
      requires 0 <= row && |text| > 0
      modifies this`rows
      ensures next == col + (if repeat > 0 then repeat else 0)
      ensures rows == RunApplied(old(rows), row, text, col, StyleOf(hl, defaultHL, hlId), next - col)
    {
      var k: nat := if repeat > 0 then repeat else 0;
      ghost var style := StyleOf(hl, defaultHL, hlId);
      ghost var target := RunApplied(rows, row, text, col, style, k);
      next := col;
      var j := 0;
      while j < repeat
        invariant 0 <= j <= k
        invariant next == col + j
        invariant RunApplied(rows, row, text, next, style, k - j) == target
      {
        ghost var before := rows;
        WriteHead(row, next, text, hlId);
        RunAppliedStep(before, row, text, next, style, k - j);
        next := next + 1;
        j := j + 1;
      }
    }

    /** One repetition of a cell: its first byte at `col`, then, for a wide text, a space at the same column. */
    method WriteHead(row: int, col: nat, text: seq<byte>, hlId: int)
      requires 0 <= row && |text| > 0
      modifies this`rows
      ensures rows == RunHead(old(rows), row, text, col, StyleOf(hl, defaultHL, hlId))
    {
      WriteRune(row, col, ByteRune(text[0]), hlId);
      if |text| > 1 {
        WriteRune(row, col, ' ', hlId);
      }
    }

    /** refreshCursor: paint the cursor overlay into the cursor cell. */
    method RefreshCursor()
      modifies this`rows
      ensures 0 <= cursorRow < |old(rows)| && 0 <= cursorCol < |old(rows)[cursorRow]| ==>
                rows == old(rows)[cursorRow := old(rows)[cursorRow][cursorCol := CursorOverlay(old(rows), cursorRow, cursorCol)]]
      ensures 0 <= cursorRow < |old(rows)| && 0 <= cursorCol < |old(rows)[cursorRow]| ==>
                rows[cursorRow][cursorCol] == Cell(old(rows)[cursorRow][cursorCol].rune, Style(CursorFg, CursorBg))
      ensures !(0 <= cursorRow < |old(rows)| && 0 <= cursorCol < |old(rows)[cursorRow]|) ==> rows == old(rows)
    {
      var cursorCell := CursorOverlay(rows, cursorRow, cursorCol);
      if 0 <= cursorRow < |rows| && 0 <= cursorCol < |rows[cursorRow]| {
        rows := rows[cursorRow := rows[cursorRow][cursorCol := cursorCell]];
      }
    }

    /**
     * A move of the cursor to column `a` of its row, the overlay painted
     * there, and a move on to column `b` of the same row: cell `a` ends with
     * its rune and the colours it had before the overlay.
     */
    method OverlayIsUndone(a: int, b: int)
      requires 0 <= cursorRow < |rows| && 0 <= cursorCol < |rows[cursorRow]|
      requires 0 <= a < |rows[cursorRow]| && 0 <= b < |rows[cursorRow]|
      modifies this`rows, this`cursorCellFg, this`cursorCellBg, this`cursorRow, this`cursorCol
      ensures cursorRow == old(cursorRow) && cursorCol == b
      ensures |rows| == |old(rows)| && |rows[cursorRow]| == |old(rows)[cursorRow]|
      ensures rows[cursorRow][a].rune == old(rows[cursorRow][a].rune)
      ensures rows[cursorRow][a].style ==
                if a == old(cursorCol) then Style(old(cursorCellFg), old(cursorCellBg))
                else old(rows[cursorRow][a].style)
    {
      var r := cursorRow;
      MoveGridCursor(r, cursorCol, r, a);
      RefreshCursor();
      MoveGridCursor(r, a, r, b);
    }
  }

  /**
   * One pass of ScrollGrid's inner loop: padding row `row` up to `col` and
   * copying cell `col` of row `row + n` into it turns the copy of [left,
   * col) into the copy of [left, col + 1).
   */
  lemma ScrollRowStep(g: Grid, row: int, n: int, left: int, col: int, pad: Cell)
    requires 0 <= row && 0 <= left <= col
    requires n != 0 ==> 0 <= row + n < |g| && col < |g[row + n]|
    ensures var f := Filled(RowCopied(g, row, n, left, col, pad), row, col, pad);
            0 <= row + n < |f| && col < |f[row + n]|
            && RowCopied(g, row, n, left, col + 1, pad) == f[row := f[row][col := f[row + n][col]]]
  {
    var r := RowCopied(g, row, n, left, col, pad);
    var f := Filled(r, row, col, pad);
    var want := RowCopied(g, row, n, left, col + 1, pad);
    var dst, src := RowOf(g, row), RowOf(g, row + n);
    FilledShape(r, row, col, pad);
    RowCopiedIn(g, row, n, left, col + 1, pad);
    if left < col {
      RowCopiedIn(g, row, n, left, col, pad);
    }
    assert RowOf(r, row) == if left < col then CopiedRow(dst, src, left, col, pad) else dst;
    if n != 0 {
      RowCopiedOut(g, row, n, left, col, pad, row + n);
      assert f[row + n] == RowOf(r, row + n) == src;
    }
    var cell := f[row + n][col];
    assert cell == if col < |src| then src[col] else pad;
    var got := f[row := f[row][col := cell]];
    assert |want| == |got|;
    forall i | 0 <= i < |want|
      ensures want[i] == got[i]
    {
      assert want[i] == RowOf(want, i);
      if i == row {
        assert want[i] == CopiedRow(dst, src, left, col + 1, pad);
        assert |got[i]| == |want[i]|;
      } else {
        RowCopiedOut(g, row, n, left, col + 1, pad, i);
        RowCopiedOut(g, row, n, left, col, pad, i);
      }
    }
  }

  /** One pass of ScrollGrid's outer loop for n > 0 reads a row that is still as it was, and long enough. */
  lemma ScrollUpStep(g: Grid, top: int, bot: int, left: int, right: int, n: int, row: int, pad: Cell)
    requires n > 0 && ScrollInBounds(g, top, bot, left, right, n) && top <= row < bot - n
    ensures var c := ScrolledUp(g, top, row, n, left, right, pad);
            left < right ==> 0 <= row && 0 <= left && 0 <= row + n < |c| && right <= |c[row + n]|
  {
    if left < right {
      ScrolledUpKept(g, top, row, n, left, right, pad, row + n);
      ScrolledUpHeight(g, top, row, n, left, right, pad);
      assert right <= |g[row + n]|;
    }
  }

  /** One pass of ScrollGrid's outer loop for n <= 0 reads a row that is still as it was, and long enough. */
  lemma ScrollDownStep(g: Grid, top: int, bot: int, left: int, right: int, n: int, row: int, pad: Cell)
    requires n <= 0 && ScrollInBounds(g, top, bot, left, right, n) && top - n < row < bot
    ensures var c := ScrolledDown(g, row + 1, bot, n, left, right, pad);
            (left < right ==> 0 <= row && 0 <= left)
            && (left < right && n != 0 ==> 0 <= row + n < |c| && right <= |c[row + n]|)
  {
    if left < right && n < 0 {
      ScrolledDownKept(g, row + 1, bot, n, left, right, pad, row + n);
      ScrolledDownHeight(g, row + 1, bot, n, left, right, pad);
      assert right <= |g[row + n]|;
    }
  }

  /** Row `row` after RowCopied holds the copied columns. */
  lemma RowCopiedIn(g: Grid, row: int, n: int, left: int, right: int, pad: Cell)
    requires left < right && 0 <= row
    ensures RowOf(RowCopied(g, row, n, left, right, pad), row)
            == CopiedRow(RowOf(g, row), RowOf(g, row + n), left, right, pad)
  {
    assert RowCopied(g, row, n, left, right, pad)[row] == CopiedRow(RowOf(g, row), RowOf(g, row + n), left, right, pad);
  }

  /** Every other row is left as it was by RowCopied. */
  lemma RowCopiedOut(g: Grid, row: int, n: int, left: int, right: int, pad: Cell, r: int)
    requires r != row || r < 0 || right <= left
    ensures RowOf(RowCopied(g, row, n, left, right, pad), r) == RowOf(g, r)
  {
    var c := RowCopied(g, row, n, left, right, pad);
    if left < right && 0 <= r < |c| {
      assert c[r] == RowOf(g, r);
    }
  }

  /** Upward scrolling never removes rows: the height becomes at least hi when any row is written. */
  lemma {:induction false} ScrolledUpHeight(g: Grid, lo: int, hi: int, n: int, left: int, right: int, pad: Cell)
    ensures |ScrolledUp(g, lo, hi, n, left, right, pad)| == if left < right && lo < hi then Max(|g|, hi) else |g|
    decreases hi - lo
  {
    if lo < hi {
      ScrolledUpHeight(g, lo, hi - 1, n, left, right, pad);
    }
  }

  /** Downward scrolling never removes rows: the height becomes at least hi when any row is written. */
  lemma {:induction false} ScrolledDownHeight(g: Grid, lo: int, hi: int, n: int, left: int, right: int, pad: Cell)
    ensures |ScrolledDown(g, lo, hi, n, left, right, pad)| == if left < right && lo < hi then Max(|g|, hi) else |g|
    decreases hi - lo
  {
    if lo < hi {
      ScrolledDownHeight(g, lo + 1, hi, n, left, right, pad);
    }
  }

  /** An upward scroll of rows [lo, hi) leaves every other row as it was. */
  lemma {:induction false} ScrolledUpKept(g: Grid, lo: int, hi: int, n: int, left: int, right: int, pad: Cell, r: int)
    requires 0 < n && !(left < right && lo <= r < hi && 0 <= r)
    ensures RowOf(ScrolledUp(g, lo, hi, n, left, right, pad), r) == RowOf(g, r)
    decreases hi - lo
  {
    if lo < hi {
      ScrolledUpKept(g, lo, hi - 1, n, left, right, pad, r);
      RowCopiedOut(ScrolledUp(g, lo, hi - 1, n, left, right, pad), hi - 1, n, left, right, pad, r);
    }
  }

  /**
   * Row r of [lo, hi) after an upward scroll: because each row reads a row
   * below it that the loop has not written yet, it holds the copied columns
   * of the ORIGINAL row r + n.
   */
  lemma {:induction false} ScrolledUpMoved(g: Grid, lo: int, hi: int, n: int, left: int, right: int, pad: Cell, r: int)
    requires 0 < n && left < right && lo <= r < hi && 0 <= r
    ensures RowOf(ScrolledUp(g, lo, hi, n, left, right, pad), r)
            == CopiedRow(RowOf(g, r), RowOf(g, r + n), left, right, pad)
    decreases hi - lo
  {
    if r == hi - 1 {
      ScrolledUpLast(g, lo, hi, n, left, right, pad);
    } else {
      ScrolledUpMoved(g, lo, hi - 1, n, left, right, pad, r);
      RowCopiedOut(ScrolledUp(g, lo, hi - 1, n, left, right, pad), hi - 1, n, left, right, pad, r);
    }
  }

  /** The last row an upward scroll writes holds the copied columns of the original rows. */
  lemma ScrolledUpLast(g: Grid, lo: int, hi: int, n: int, left: int, right: int, pad: Cell)
    requires 0 < n && left < right && lo < hi && 0 < hi
    ensures RowOf(ScrolledUp(g, lo, hi, n, left, right, pad), hi - 1)
            == CopiedRow(RowOf(g, hi - 1), RowOf(g, hi - 1 + n), left, right, pad)
  {
    var c := ScrolledUp(g, lo, hi - 1, n, left, right, pad);
    ScrolledUpKept(g, lo, hi - 1, n, left, right, pad, hi - 1);
    ScrolledUpKept(g, lo, hi - 1, n, left, right, pad, hi - 1 + n);
    RowCopiedIn(c, hi - 1, n, left, right, pad);
  }

  /** A downward scroll of rows [lo, hi) leaves every other row as it was. */
  lemma {:induction false} ScrolledDownKept(g: Grid, lo: int, hi: int, n: int, left: int, right: int, pad: Cell, r: int)
    requires n <= 0 && !(left < right && lo <= r < hi && 0 <= r)
    ensures RowOf(ScrolledDown(g, lo, hi, n, left, right, pad), r) == RowOf(g, r)
    decreases hi - lo
  {
    if lo < hi {
      ScrolledDownKept(g, lo + 1, hi, n, left, right, pad, r);
      RowCopiedOut(ScrolledDown(g, lo + 1, hi, n, left, right, pad), lo, n, left, right, pad, r);
    }
  }

  /**
   * Row r of [lo, hi) after a downward scroll: each row reads a row above it
   * (or itself, for n = 0) that the loop has not written yet, so it holds the
   * copied columns of the ORIGINAL row r + n.
   */
  lemma {:induction false} ScrolledDownMoved(g: Grid, lo: int, hi: int, n: int, left: int, right: int, pad: Cell, r: int)
    requires n <= 0 && left < right && lo <= r < hi && 0 <= r
    ensures RowOf(ScrolledDown(g, lo, hi, n, left, right, pad), r)
            == CopiedRow(RowOf(g, r), RowOf(g, r + n), left, right, pad)
    decreases hi - lo
  {
    if r == lo {
      ScrolledDownFirst(g, lo, hi, n, left, right, pad);
    } else {
      ScrolledDownMoved(g, lo + 1, hi, n, left, right, pad, r);
      RowCopiedOut(ScrolledDown(g, lo + 1, hi, n, left, right, pad), lo, n, left, right, pad, r);
    }
  }

  /** The last row a downward scroll writes, row lo, holds the copied columns of the original rows. */
  lemma ScrolledDownFirst(g: Grid, lo: int, hi: int, n: int, left: int, right: int, pad: Cell)
    requires n <= 0 && left < right && lo < hi && 0 <= lo
    ensures RowOf(ScrolledDown(g, lo, hi, n, left, right, pad), lo)
            == CopiedRow(RowOf(g, lo), RowOf(g, lo + n), left, right, pad)
  {
    var c := ScrolledDown(g, lo + 1, hi, n, left, right, pad);
    ScrolledDownKept(g, lo + 1, hi, n, left, right, pad, lo);
    ScrolledDownKept(g, lo + 1, hi, n, left, right, pad, lo + n);
    RowCopiedIn(c, lo, n, left, right, pad);
  }

  /**
   * ScrollGrid moves text: for n != 0 and bounds that hold, every cell of a
   * target row in columns [left, right) ends up holding the cell that was n
   * rows away before the scroll, and the target row is at least `right` long.
   */
  lemma ScrollMovesCells(g: Grid, top: int, bot: int, left: int, right: int, n: int, pad: Cell, r: int, c: int)
    requires ScrollInBounds(g, top, bot, left, right, n) && n != 0
    requires (if n > 0 then top <= r < bot - n else top - n < r < bot) && left <= c < right
    ensures var s := Scrolled(g, top, bot, left, right, n, pad);
            0 <= r < |s| && |s[r]| == Max(|RowOf(g, r)|, right) && 0 <= r + n < |g| && s[r][c] == g[r + n][c]
  {
    var s := Scrolled(g, top, bot, left, right, n, pad);
    if n > 0 {
      ScrolledUpMoved(g, top, bot - n, n, left, right, pad, r);
      assert top + n <= r + n < bot;
    } else {
      ScrolledDownMoved(g, top - n + 1, bot, n, left, right, pad, r);
      assert top < r + n < bot + n;
    }
    assert RowOf(s, r) == CopiedRow(RowOf(g, r), RowOf(g, r + n), left, right, pad);
    assert right <= |g[r + n]|;
  }

  /**
   * ScrollGrid leaves every existing cell outside the moved block as it was:
   * cells of rows that are not targets (in particular the rows the text moved
   * away from, which are not blanked), cells outside columns [left, right),
   * and, for n = 0, every cell.
   */
  lemma ScrollKeepsCells(g: Grid, top: int, bot: int, left: int, right: int, n: int, pad: Cell, r: int, c: int)
    requires 0 <= r < |g| && 0 <= c < |g[r]|
    requires n == 0 || c < left || right <= c || (if n > 0 then !(top <= r < bot - n) else !(top - n < r < bot))
    ensures var s := Scrolled(g, top, bot, left, right, n, pad);
            r < |s| && c < |s[r]| && s[r][c] == g[r][c]
  {
    var s := Scrolled(g, top, bot, left, right, n, pad);
    if n > 0 {
      if left < right && top <= r < bot - n {
        ScrolledUpMoved(g, top, bot - n, n, left, right, pad, r);
      } else {
        ScrolledUpKept(g, top, bot - n, n, left, right, pad, r);
      }
    } else {
      if left < right && top - n < r < bot {
        ScrolledDownMoved(g, top - n + 1, bot, n, left, right, pad, r);
      } else {
        ScrolledDownKept(g, top - n + 1, bot, n, left, right, pad, r);
      }
    }
    assert |RowOf(s, r)| > c;
  }

  /**
   * ScrollGrid removes no rows; an upward move (n > 0) within bounds adds
   * none either, and a downward one adds rows up to bot when it writes any.
   */
  lemma ScrolledHeight(g: Grid, top: int, bot: int, left: int, right: int, n: int, pad: Cell)
    requires ScrollInBounds(g, top, bot, left, right, n)
    ensures var s := Scrolled(g, top, bot, left, right, n, pad);
            if n > 0 then |s| == |g|
            else |s| == if left < right && top - n + 1 < bot then Max(|g|, bot) else |g|
  {
    if n > 0 {
      ScrolledUpHeight(g, top, bot - n, n, left, right, pad);
    } else {
      ScrolledDownHeight(g, top - n + 1, bot, n, left, right, pad);
    }
  }

  /** With both default colours set, no stored style holds the sentinel: colours are resolved at write time. */
  lemma StyleIsResolved(table: map<int, Highlight>, defaultHL: Highlight, id: int)
    requires defaultHL.fg != Sentinel && defaultHL.bg != Sentinel
    ensures StyleOf(table, defaultHL, id).fg != Sentinel && StyleOf(table, defaultHL, id).bg != Sentinel
  {
  }

  /** An id missing from the table is written in the default highlight's colours. */
  lemma UnknownIdUsesDefault(table: map<int, Highlight>, defaultHL: Highlight, id: int)
    requires id !in table
    ensures StyleOf(table, defaultHL, id) == Style(defaultHL.fg, defaultHL.bg)
  {
  }

  /** One repetition of a run on row `row`: the first byte at `col`, then, for a wide text, a space at the same `col`. */
  function RunHead(g: Grid, row: int, text: seq<byte>, col: nat, style: Style): Grid
    requires 0 <= row && |text| > 0
  {
    var g1 := PutCell(g, row, col, Cell(ByteRune(text[0]), style));
    if |text| > 1 then PutCell(g1, row, col, Cell(' ', style)) else g1
  }

  /** Peeling one repetition off the front of a run. */
  lemma RunStep(g: Grid, row: int, text: seq<byte>, col: nat, hlId: int, k: nat,
                table: map<int, Highlight>, defaultHL: Highlight)
    requires 0 <= row && |text| > 0 && k > 0
    ensures ApplyWrites(g, row, RunWrites(text, col, hlId, k), table, defaultHL)
            == ApplyWrites(RunHead(g, row, text, col, StyleOf(table, defaultHL, hlId)), row,
                           RunWrites(text, col + 1, hlId, k - 1), table, defaultHL)
  {
    var style := StyleOf(table, defaultHL, hlId);
    var ws := RunWrites(text, col, hlId, k);
    var tail := RunWrites(text, col + 1, hlId, k - 1);
    var g1 := PutCell(g, row, col, Cell(ByteRune(text[0]), style));
    assert ws[0] == RuneWrite(col, ByteRune(text[0]), hlId);
    assert ApplyWrites(g, row, ws, table, defaultHL) == ApplyWrites(g1, row, ws[1..], table, defaultHL);
    if |text| > 1 {
      var g2 := PutCell(g1, row, col, Cell(' ', style));
      assert ws[1..][0] == RuneWrite(col, ' ', hlId) && ws[1..][1..] == tail;
      assert ApplyWrites(g1, row, ws[1..], table, defaultHL) == ApplyWrites(g2, row, tail, table, defaultHL);
    } else {
      assert ws[1..] == tail;
    }
  }

  /** Applying `a + b` is applying `a`, then `b`. */
  lemma {:induction false} ApplyWritesAppend(g: Grid, row: int, a: seq<RuneWrite>, b: seq<RuneWrite>,
                                             table: map<int, Highlight>, defaultHL: Highlight)
    requires 0 <= row
    ensures ApplyWrites(g, row, a + b, table, defaultHL)
            == ApplyWrites(ApplyWrites(g, row, a, table, defaultHL), row, b, table, defaultHL)
    decreases |a|
  {
    if a == [] {
      assert a + b == b;
    } else {
      var w := a[0];
      var g1 := PutCell(g, row, w.col, Cell(w.rune, StyleOf(table, defaultHL, w.hlId)));
      assert (a + b)[0] == w && (a + b)[1..] == a[1..] + b;
      ApplyWritesAppend(g1, row, a[1..], b, table, defaultHL);
    }
  }

  /** The grid after k repetitions of a run from column `col`, one RunHead at a time. */
  function RunApplied(g: Grid, row: int, text: seq<byte>, col: nat, style: Style, k: nat): Grid
    requires 0 <= row && |text| > 0
    decreases k
  {
    if k == 0 then g else RunApplied(RunHead(g, row, text, col, style), row, text, col + 1, style, k - 1)
  }

  /** Peeling the first repetition off a run of k > 0. */
  lemma RunAppliedStep(g: Grid, row: int, text: seq<byte>, col: nat, style: Style, k: nat)
    requires 0 <= row && |text| > 0 && k > 0
    ensures RunApplied(g, row, text, col, style, k)
            == RunApplied(RunHead(g, row, text, col, style), row, text, col + 1, style, k - 1)
  {
  }

  /** Applying the writes of a run is applying its repetitions one after the other. */
  lemma {:induction false} RunAppliedWrites(g: Grid, row: int, text: seq<byte>, col: nat, hlId: int, k: nat,
                                            table: map<int, Highlight>, defaultHL: Highlight)
    requires 0 <= row && |text| > 0
    ensures ApplyWrites(g, row, RunWrites(text, col, hlId, k), table, defaultHL)
            == RunApplied(g, row, text, col, StyleOf(table, defaultHL, hlId), k)
    decreases k
  {
    if k > 0 {
      var style := StyleOf(table, defaultHL, hlId);
      RunStep(g, row, text, col, hlId, k, table, defaultHL);
      RunAppliedWrites(RunHead(g, row, text, col, style), row, text, col + 1, hlId, k - 1, table, defaultHL);
    }
  }

  /** The grid after a grid_line payload, one cell's run at a time. */
  function LineApplied(g: Grid, row: int, cells: seq<LineCell>, col: nat, last: int,
                       table: map<int, Highlight>, defaultHL: Highlight): Grid
    requires 0 <= row && TextsNonEmpty(cells)
    decreases |cells|
  {
    if cells == [] then g
    else
      var h := CarriedHL(cells[0], last);
      LineApplied(RunApplied(g, row, cells[0].text, col, StyleOf(table, defaultHL, h), Repeat(cells[0])),
                  row, cells[1..], col + Repeat(cells[0]), h, table, defaultHL)
  }

  /** One pass of WriteGridLine's loop keeps "applying the rest of the payload gives the final grid". */
  lemma LineLoopStep(g: Grid, g': Grid, row: int, rest: seq<LineCell>, col: nat, col': nat,
                     last: int, last': int, table: map<int, Highlight>, defaultHL: Highlight, target: Grid)
    requires 0 <= row && rest != [] && TextsNonEmpty(rest)
    requires LineApplied(g, row, rest, col, last, table, defaultHL) == target
    requires last' == CarriedHL(rest[0], last)
    requires col' == col + Repeat(rest[0])
    requires g' == RunApplied(g, row, rest[0].text, col, StyleOf(table, defaultHL, last'), col' - col)
    ensures TextsNonEmpty(rest[1..])
    ensures LineApplied(g', row, rest[1..], col', last', table, defaultHL) == target
  {
  }

  /** Applying a payload run by run is applying its writeRune calls in order. */
  lemma {:induction false} LineAppliedWrites(g: Grid, row: int, cells: seq<LineCell>, col: nat, last: int,
                                             table: map<int, Highlight>, defaultHL: Highlight)
    requires 0 <= row && TextsNonEmpty(cells)
    ensures ApplyWrites(g, row, LineWrites(cells, col, last), table, defaultHL)
            == LineApplied(g, row, cells, col, last, table, defaultHL)
    decreases |cells|
  {
    if cells != [] {
      var h := CarriedHL(cells[0], last);
      var k := Repeat(cells[0]);
      var run := RunWrites(cells[0].text, col, h, k);
      var rest := LineWrites(cells[1..], col + k, h);
      assert LineWrites(cells, col, last) == run + rest;
      ApplyWritesAppend(g, row, run, rest, table, defaultHL);
      RunAppliedWrites(g, row, cells[0].text, col, h, k, table, defaultHL);
      LineAppliedWrites(RunApplied(g, row, cells[0].text, col, StyleOf(table, defaultHL, h), k),
                        row, cells[1..], col + k, h, table, defaultHL);
    }
  }

  /** The content one run leaves behind: the text's first byte, or a space when the text is longer than one byte. */
  function Shown(text: seq<byte>): char
    requires |text| > 0
  {
    if |text| > 1 then ' ' else ByteRune(text[0])
  }

  /** One repetition writes Shown(text) at `col`, pads the row up to it, and changes no other cell. */
  lemma RunHeadShape(g: Grid, row: int, text: seq<byte>, col: nat, style: Style)
    requires 0 <= row && |text| > 0
    ensures |RunHead(g, row, text, col, style)| == Max(|g|, row + 1)
    ensures |RunHead(g, row, text, col, style)[row]| == Max(|RowOf(g, row)|, col + 1)
    ensures RunHead(g, row, text, col, style)[row][col] == Cell(Shown(text), style)
    ensures forall c :: 0 <= c < |RowOf(g, row)| && c != col ==> RunHead(g, row, text, col, style)[row][c] == g[row][c]
    ensures forall i :: 0 <= i && i != row ==> RowOf(RunHead(g, row, text, col, style), i) == RowOf(g, i)
  {
    var g1 := PutCell(g, row, col, Cell(ByteRune(text[0]), style));
    PutCellShape(g, row, col, Cell(ByteRune(text[0]), style));
    if |text| > 1 {
      PutCellShape(g1, row, col, Cell(' ', style));
    }
  }

  /**
   * Repetitions from column `col` leave every cell of the row outside
   * [col, col + k) as it was, and never shrink the grid or the row.
   */
  lemma {:induction false} RunAppliedFrame(g: Grid, row: int, text: seq<byte>, col: nat, style: Style, k: nat, c: int)
    requires 0 <= row && |text| > 0 && 0 <= c && (c < col || col + k <= c)
    ensures |RunApplied(g, row, text, col, style, k)| >= |g|
    ensures |RowOf(RunApplied(g, row, text, col, style, k), row)| >= |RowOf(g, row)|
    ensures c < |RowOf(g, row)| ==> RunApplied(g, row, text, col, style, k)[row][c] == g[row][c]
    decreases k
  {
    if k > 0 {
      RunHeadShape(g, row, text, col, style);
      RunAppliedFrame(RunHead(g, row, text, col, style), row, text, col + 1, style, k - 1, c);
    }
  }

  /** Repetitions on row `row` leave every other row as it was. */
  lemma {:induction false} RunAppliedOtherRows(g: Grid, row: int, text: seq<byte>, col: nat, style: Style, k: nat, i: int)
    requires 0 <= row && |text| > 0 && 0 <= i && i != row
    ensures RowOf(RunApplied(g, row, text, col, style, k), i) == RowOf(g, i)
    decreases k
  {
    if k > 0 {
      RunHeadShape(g, row, text, col, style);
      RunAppliedOtherRows(RunHead(g, row, text, col, style), row, text, col + 1, style, k - 1, i);
    }
  }

  /**
   * A cell repeated k times from column `col` leaves columns [col, col + k)
   * of the row holding Shown(text) in the cell's style: a text longer than
   * one byte leaves spaces and takes no extra column.
   */
  lemma {:induction false} RunResult(g: Grid, row: int, text: seq<byte>, col: nat, style: Style, k: nat)
    requires 0 <= row && |text| > 0
    ensures k > 0 ==> row < |RunApplied(g, row, text, col, style, k)|
                      && col + k <= |RunApplied(g, row, text, col, style, k)[row]|
    ensures forall c :: col <= c < col + k ==>
              RunApplied(g, row, text, col, style, k)[row][c] == Cell(Shown(text), style)
    decreases k
  {
    if k > 0 {
      var h := RunHead(g, row, text, col, style);
      RunHeadShape(g, row, text, col, style);
      RunResult(h, row, text, col + 1, style, k - 1);
      RunAppliedFrame(h, row, text, col + 1, style, k - 1, col);
    }
  }

  /**
   * The shape of one run: k writes of the first byte at consecutive columns
   * from `col`, or, for a text longer than one byte, 2k writes where each
   * column gets the byte and then a space.
   */
  lemma {:induction false} RunWritesShape(text: seq<byte>, col: nat, hlId: int, k: nat)
    requires |text| > 0
    ensures |text| == 1 ==> |RunWrites(text, col, hlId, k)| == k
    ensures |text| == 1 ==> forall i :: 0 <= i < k ==>
              RunWrites(text, col, hlId, k)[i] == RuneWrite(col + i, ByteRune(text[0]), hlId)
    ensures |text| > 1 ==> |RunWrites(text, col, hlId, k)| == 2 * k
    ensures |text| > 1 ==> forall i :: 0 <= i < k ==>
              RunWrites(text, col, hlId, k)[2 * i] == RuneWrite(col + i, ByteRune(text[0]), hlId)
              && RunWrites(text, col, hlId, k)[2 * i + 1] == RuneWrite(col + i, ' ', hlId)
    decreases k
  {
    if k > 0 {
      RunWritesShape(text, col + 1, hlId, k - 1);
      var ws := RunWrites(text, col, hlId, k);
      var tail := RunWrites(text, col + 1, hlId, k - 1);
      if |text| > 1 {
        assert ws == [RuneWrite(col, ByteRune(text[0]), hlId), RuneWrite(col, ' ', hlId)] + tail;
        forall i | 1 <= i < k
          ensures ws[2 * i] == RuneWrite(col + i, ByteRune(text[0]), hlId)
          ensures ws[2 * i + 1] == RuneWrite(col + i, ' ', hlId)
        {
          assert ws[2 * i] == tail[2 * (i - 1)];
          assert ws[2 * i + 1] == tail[2 * (i - 1) + 1];
        }
      } else {
        assert ws == [RuneWrite(col, ByteRune(text[0]), hlId)] + tail;
        forall i | 1 <= i < k
          ensures ws[i] == RuneWrite(col + i, ByteRune(text[0]), hlId)
        {
          assert ws[i] == tail[i - 1];
        }
      }
    }
  }

  /** Every write of a run of k repetitions from `col` lands in [col, col + k). */
  lemma {:induction false} RunWritesInRange(text: seq<byte>, col: nat, hlId: int, k: nat)
    requires |text| > 0
    ensures forall i :: 0 <= i < |RunWrites(text, col, hlId, k)| ==>
              col <= RunWrites(text, col, hlId, k)[i].col < col + k
    decreases k
  {
    if k > 0 {
      RunWritesInRange(text, col + 1, hlId, k - 1);
    }
  }

  /** Every write of a grid_line payload lands in [col, col + TotalRepeat(cells)). */
  lemma {:induction false} LineWritesInRange(cells: seq<LineCell>, col: nat, last: int)
    requires TextsNonEmpty(cells)
    ensures forall i :: 0 <= i < |LineWrites(cells, col, last)| ==>
              col <= LineWrites(cells, col, last)[i].col < col + TotalRepeat(cells)
  {
    if cells != [] {
      var h := CarriedHL(cells[0], last);
      var k := Repeat(cells[0]);
      var run := RunWrites(cells[0].text, col, h, k);
      LineWritesInRange(cells[1..], col + k, h);
      RunWritesInRange(cells[0].text, col, h, k);
    }
  }

  /**
   * The highlight id in force for cell `j` of a payload, with `last` carried
   * into cell 0: the id WriteGridLine's loop holds when it reaches cell `j`.
   */
  function HLInForce(cells: seq<LineCell>, j: nat, last: int): int
    requires j < |cells|
    decreases j
  {
    var h := CarriedHL(cells[0], last);
    if j == 0 then h else HLInForce(cells[1..], j - 1, h)
  }

  /**
   * The id in force for cell `j` is the cell's own id when it has one, and
   * otherwise the one in force for cell `j - 1` (`last` for cell 0): the id
   * of the nearest cell at or before `j` that carries one.
   */
  lemma {:induction false} HLInForceNearest(cells: seq<LineCell>, j: nat, last: int)
    requires j < |cells|
    ensures cells[j].hlId.Some? ==> HLInForce(cells, j, last) == cells[j].hlId.value
    ensures cells[j].hlId.None? && j == 0 ==> HLInForce(cells, j, last) == last
    ensures cells[j].hlId.None? && j > 0 ==> HLInForce(cells, j, last) == HLInForce(cells, j - 1, last)
    decreases j
  {
    if j > 0 {
      var h := CarriedHL(cells[0], last);
      HLInForceNearest(cells[1..], j - 1, h);
    }
  }

  /** The cell payload cell `j` leaves in the grid, with `last` the id carried into cell 0. */
  function PaintedCell(cells: seq<LineCell>, j: nat, last: int, table: map<int, Highlight>, defaultHL: Highlight): Cell
    requires TextsNonEmpty(cells) && j < |cells|
    decreases j
  {
    var h := CarriedHL(cells[0], last);
    if j == 0 then Cell(Shown(cells[0].text), StyleOf(table, defaultHL, h))
    else PaintedCell(cells[1..], j - 1, h, table, defaultHL)
  }

  /**
   * Payload cell `j` leaves Shown of its own text, in the style of the
   * highlight id in force for it.
   */
  lemma {:induction false} PaintedCellIs(cells: seq<LineCell>, j: nat, last: int,
                                         table: map<int, Highlight>, defaultHL: Highlight)
    requires TextsNonEmpty(cells) && j < |cells|
    ensures |cells[j].text| > 0
    ensures PaintedCell(cells, j, last, table, defaultHL)
            == Cell(Shown(cells[j].text), StyleOf(table, defaultHL, HLInForce(cells, j, last)))
    decreases j
  {
    if j > 0 {
      PaintedCellIs(cells[1..], j - 1, CarriedHL(cells[0], last), table, defaultHL);
    }
  }

  /** The column offset of payload cell `j` from the payload's first column. */
  function ColumnOf(cells: seq<LineCell>, j: nat): nat
    requires j <= |cells|
    decreases j
  {
    if j == 0 then 0 else Repeat(cells[0]) + ColumnOf(cells[1..], j - 1)
  }

  /** The offset of cell `j` is the total repeat count of the cells before it. */
  lemma {:induction false} ColumnOfPrefix(cells: seq<LineCell>, j: nat)
    requires j <= |cells|
    ensures ColumnOf(cells, j) == TotalRepeat(cells[..j])
    decreases j
  {
    if j > 0 {
      assert cells[..j][0] == cells[0];
      assert cells[..j][1..] == cells[1..][..j - 1];
      ColumnOfPrefix(cells[1..], j - 1);
    }
  }

  /** The offset after cell `j` is the offset of cell `j` plus its repeat count. */
  lemma {:induction false} ColumnOfNext(cells: seq<LineCell>, j: nat)
    requires j < |cells|
    ensures ColumnOf(cells, j + 1) == ColumnOf(cells, j) + Repeat(cells[j])
    decreases j
  {
    if j > 0 {
      ColumnOfNext(cells[1..], j - 1);
    }
  }

  /**
   * A grid_line payload from column `col` leaves every cell of the row
   * outside [col, col + TotalRepeat(cells)) as it was, and never shrinks
   * the grid or the row.
   */
  lemma {:induction false} LineFrame(g: Grid, row: int, cells: seq<LineCell>, col: nat, last: int,
                                     table: map<int, Highlight>, defaultHL: Highlight, c: int)
    requires 0 <= row && TextsNonEmpty(cells) && 0 <= c && (c < col || col + TotalRepeat(cells) <= c)
    ensures |LineApplied(g, row, cells, col, last, table, defaultHL)| >= |g|
    ensures |RowOf(LineApplied(g, row, cells, col, last, table, defaultHL), row)| >= |RowOf(g, row)|
    ensures c < |RowOf(g, row)| ==> LineApplied(g, row, cells, col, last, table, defaultHL)[row][c] == g[row][c]
    decreases |cells|
  {
    if cells != [] {
      var h := CarriedHL(cells[0], last);
      var k := Repeat(cells[0]);
      var style := StyleOf(table, defaultHL, h);
      RunAppliedFrame(g, row, cells[0].text, col, style, k, c);
      LineFrame(RunApplied(g, row, cells[0].text, col, style, k), row, cells[1..], col + k, h, table, defaultHL, c);
    }
  }

  /** A grid_line payload on row `row` leaves every other row as it was. */
  lemma {:induction false} LineOtherRows(g: Grid, row: int, cells: seq<LineCell>, col: nat, last: int,
                                         table: map<int, Highlight>, defaultHL: Highlight, i: int)
    requires 0 <= row && TextsNonEmpty(cells) && 0 <= i && i != row
    ensures RowOf(LineApplied(g, row, cells, col, last, table, defaultHL), i) == RowOf(g, i)
    decreases |cells|
  {
    if cells != [] {
      var h := CarriedHL(cells[0], last);
      var k := Repeat(cells[0]);
      var style := StyleOf(table, defaultHL, h);
      RunAppliedOtherRows(g, row, cells[0].text, col, style, k, i);
      LineOtherRows(RunApplied(g, row, cells[0].text, col, style, k), row, cells[1..], col + k, h, table, defaultHL, i);
    }
  }

  /** Column `c` within the columns of the first payload cell holds the cell it leaves. */
  lemma FirstCellResult(g: Grid, row: int, cells: seq<LineCell>, col: nat, last: int,
                        table: map<int, Highlight>, defaultHL: Highlight, c: int)
    requires 0 <= row && TextsNonEmpty(cells) && cells != []
    requires col <= c < col + Repeat(cells[0])
    ensures CellAt(LineApplied(g, row, cells, col, last, table, defaultHL), row, c)
            == Some(PaintedCell(cells, 0, last, table, defaultHL))
  {
    var h := CarriedHL(cells[0], last);
    var k := Repeat(cells[0]);
    var style := StyleOf(table, defaultHL, h);
    var g1 := RunApplied(g, row, cells[0].text, col, style, k);
    RunResult(g, row, cells[0].text, col, style, k);
    LineFrame(g1, row, cells[1..], col + k, h, table, defaultHL, c);
  }

  /** Column `c` within the columns of payload cell `j` holds the cell payload cell `j` leaves. */
  lemma {:induction false} LineCellResult(g: Grid, row: int, cells: seq<LineCell>, col: nat, last: int,
                                          table: map<int, Highlight>, defaultHL: Highlight, j: nat, c: int)
    requires 0 <= row && TextsNonEmpty(cells) && j < |cells|
    requires col + ColumnOf(cells, j) <= c < col + ColumnOf(cells, j) + Repeat(cells[j])
    ensures CellAt(LineApplied(g, row, cells, col, last, table, defaultHL), row, c)
            == Some(PaintedCell(cells, j, last, table, defaultHL))
    decreases j
  {
    if j == 0 {
      FirstCellResult(g, row, cells, col, last, table, defaultHL, c);
    } else {
      var h := CarriedHL(cells[0], last);
      var k := Repeat(cells[0]);
      var g1 := RunApplied(g, row, cells[0].text, col, StyleOf(table, defaultHL, h), k);
      LineCellResult(g1, row, cells[1..], col + k, h, table, defaultHL, j - 1, c);
    }
  }

  /** The cell at (row, c) of `g`, or None when the grid does not reach it. */
  function CellAt(g: Grid, row: int, c: int): Option<Cell>
  {
    if 0 <= row < |g| && 0 <= c < |g[row]| then Some(g[row][c]) else None
  }

  /** Columns [from, to) of row `row` of `g` exist and all hold `cell`. */
  ghost predicate RunFilled(g: Grid, row: int, from: int, to: int, cell: Cell)
  {
    forall c | from <= c < to :: CellAt(g, row, c) == Some(cell)
  }

  /**
   * The whole effect of a grid_line payload on its row: cell `j` of the
   * payload fills columns [col + TotalRepeat(cells[..j]), col + TotalRepeat(cells[..j + 1]))
   * with PaintedCell, which PaintedCellIs shows is Shown(text) in the style
   * of the id in force for it; LineFrame gives the cells and rows it leaves
   * as they were.
   */
  lemma LineResult(g: Grid, row: int, cells: seq<LineCell>, col: nat, last: int,
                   table: map<int, Highlight>, defaultHL: Highlight)
    requires 0 <= row && TextsNonEmpty(cells)
    ensures forall j | 0 <= j < |cells| ::
              RunFilled(LineApplied(g, row, cells, col, last, table, defaultHL), row,
                        col + TotalRepeat(cells[..j]), col + TotalRepeat(cells[..j + 1]),
                        PaintedCell(cells, j, last, table, defaultHL))
  {
    var result := LineApplied(g, row, cells, col, last, table, defaultHL);
    forall j | 0 <= j < |cells|
      ensures RunFilled(result, row, col + TotalRepeat(cells[..j]), col + TotalRepeat(cells[..j + 1]),
                        PaintedCell(cells, j, last, table, defaultHL))
    {
      ColumnOfPrefix(cells, j);
      ColumnOfPrefix(cells, j + 1);
      ColumnOfNext(cells, j);
      forall c | col + TotalRepeat(cells[..j]) <= c < col + TotalRepeat(cells[..j + 1])
        ensures CellAt(result, row, c) == Some(PaintedCell(cells, j, last, table, defaultHL))
      {
        LineCellResult(g, row, cells, col, last, table, defaultHL, j, c);
      }
    }
  }

  /** The examples [["H",5,1],["i"]] and [["a",1,2],["b"]] from column 0, and a lone cell without an id from column 3. */
  lemma GridLineExample()
    ensures LineWrites([LineCell([72], Some(5), Some(1)), LineCell([105], None, None)], 0, 0)
            == [RuneWrite(0, 'H', 5), RuneWrite(1, 'i', 5)]
    ensures LineWrites([LineCell([97], Some(1), Some(2)), LineCell([98], None, None)], 0, 0)
            == [RuneWrite(0, 'a', 1), RuneWrite(1, 'a', 1), RuneWrite(2, 'b', 1)]
    ensures LineWrites([LineCell([120], None, None)], 3, 0) == [RuneWrite(3, 'x', 0)]
  {
  }
}
