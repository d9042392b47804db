/**
 * The widget of the older package main: a text grid with a cursor, written
 * one rune at a time at the cursor (which then moves right) and echoing
 * typed runes locally, Return moving the cursor to the start of the next row.
 * Every cell it writes, padding included, is white on black.
 */
module Legacy {
  import opened Go
  import opened Fyne
  import Growth

  /** The style of every cell this revision writes. */
  const WhiteOnBlack: Style := Style(White, Black)

  /**
   * The grid after `runes` were written one after the other at columns col,
   * col + 1, ... of row `row`.
   */
  function Echoed(g: Grid, row: int, col: int, runes: seq<char>): Grid
    requires 0 <= row && 0 <= col
    decreases |runes|
  {
    if runes == [] then g
    else Growth.PutCell(Echoed(g, row, col, runes[..|runes| - 1]), row, col + |runes| - 1,
                        Cell(runes[|runes| - 1], WhiteOnBlack))
  }

  /** Writing one more rune puts it at the column after the runes already written. */
  lemma EchoedStep(g: Grid, row: int, col: int, runes: seq<char>, r: char)
    requires 0 <= row && 0 <= col
    ensures Echoed(g, row, col, runes + [r])
            == Growth.PutCell(Echoed(g, row, col, runes), row, col + |runes|, Cell(r, WhiteOnBlack))
  {
    assert (runes + [r])[..|runes|] == runes;
  }

  /** Writing rune i of `runes` after runes 0 .. i-1 echoes runes 0 .. i. */
  lemma EchoedPrefixStep(g: Grid, row: int, col: int, runes: seq<char>, i: int, before: Grid, after: Grid)
    requires 0 <= row && 0 <= col && 0 <= i < |runes|
    requires before == if i == 0 then g else Echoed(g, row, col, runes[..i])
    requires after == Growth.PutCell(before, row, col + i, Cell(runes[i], WhiteOnBlack))
    ensures after == Echoed(g, row, col, runes[..i + 1])
  {
    assert runes[..i + 1] == runes[..i] + [runes[i]];
    assert Echoed(g, row, col, runes[..0]) == g;
    EchoedStep(g, row, col, runes[..i], runes[i]);
  }

  class NeoVim {
    var rows: Grid
    var cursorRow: int
    var cursorCol: int

    /** New: an empty grid with the cursor at the top left. */
    constructor ()
      ensures rows == [] && cursorRow == 0 && cursorCol == 0
    {
      rows := [];
      cursorRow := 0;
      cursorCol := 0;
    }

    /**
     * writeRune: make the cursor row and column exist, padding with white-on-
     * black spaces, store `r` white on black at the cursor, then move the
     * cursor one column right.
     */
    method WriteRune(r: char)
      requires 0 <= cursorRow && 0 <= cursorCol
      modifies this`rows, this`cursorCol
      ensures rows == Growth.PutCell(old(rows), cursorRow, old(cursorCol), Cell(r, WhiteOnBlack))
      ensures cursorCol == old(cursorCol) + 1
    {
      var currRow, currCol := cursorRow, cursorCol;
      while |rows| - 1 < currRow
        invariant cursorCol == currCol
        invariant |old(rows)| <= |rows| <= Max(|old(rows)|, currRow + 1)
        invariant forall i :: 0 <= i < |rows| ==> rows[i] == RowOf(old(rows), i)
      {
        rows := rows + [[]];
      }
      var cellStyle := WhiteOnBlack;
      ghost var start := rows[currRow];
      while |rows[currRow]| - 1 < currCol
        invariant cursorCol == currCol
        invariant |rows| == Max(|old(rows)|, currRow + 1)
        invariant forall i :: 0 <= i < |rows| && i != currRow ==> rows[i] == RowOf(old(rows), i)
        invariant |start| <= |rows[currRow]| <= Max(|start|, currCol + 1)
        invariant forall c :: 0 <= c < |rows[currRow]| ==>
                    rows[currRow][c] == if c < |start| then start[c] else Cell(' ', cellStyle)
      {
        rows := rows[currRow := rows[currRow] + [Cell(' ', cellStyle)]];
      }
      assert start == RowOf(old(rows), currRow);
      ghost var f := Growth.Filled(old(rows), currRow, currCol, Cell(' ', cellStyle));
      Growth.FilledShape(old(rows), currRow, currCol, Cell(' ', cellStyle));
      assert |rows[currRow]| == |f[currRow]|;
      forall i | 0 <= i < |rows|
        ensures rows[i] == f[i]
      {
        if i == currRow {
          assert |rows[i]| == |f[i]|;
        }
      }
      rows := rows[currRow := rows[currRow][currCol := Cell(r, cellStyle)]];
      cursorCol := cursorCol + 1;
    }

    /** TypedRune: the rune is echoed straight into the grid, exactly as writeRune does. */
    method TypedRune(r: char)
      requires 0 <= cursorRow && 0 <= cursorCol
      modifies this`rows, this`cursorCol
      ensures rows == Growth.PutCell(old(rows), cursorRow, old(cursorCol), Cell(r, WhiteOnBlack))
      ensures cursorCol == old(cursorCol) + 1
    {
      WriteRune(r);
    }

    /** TypedKey: Return moves the cursor to column 0 of the next row; every other key does nothing. */
    method TypedKey(name: KeyName)
      modifies this`cursorRow, this`cursorCol
      ensures name == KeyReturn ==> cursorRow == old(cursorRow) + 1 && cursorCol == 0
      ensures name != KeyReturn ==> cursorRow == old(cursorRow) && cursorCol == old(cursorCol)
    {
      if name == KeyReturn {
        cursorRow := cursorRow + 1;
        cursorCol := 0;
      }
    }

    /**
     * Typing the runes of a line, then Return, then one more rune: the line's
     * runes are echoed side by side from the cursor, the last rune lands at
     * column 0 of the next row, and the cursor ends right after it.
     */
    method TypeLineReturnOne(runes: seq<char>, c: char)
      requires 0 <= cursorRow && 0 <= cursorCol
      modifies this`rows, this`cursorRow, this`cursorCol
      ensures cursorRow == old(cursorRow) + 1 && cursorCol == 1
      ensures rows == Growth.PutCell(Echoed(old(rows), old(cursorRow), old(cursorCol), runes),
                                     old(cursorRow) + 1, 0, Cell(c, WhiteOnBlack))
      ensures old(cursorRow) + 1 < |rows| && (runes != [] ==> old(cursorCol) + |runes| <= |rows[old(cursorRow)]|)
      ensures forall i :: 0 <= i < |runes| ==> rows[old(cursorRow)][old(cursorCol) + i] == Cell(runes[i], WhiteOnBlack)
      ensures 0 < |rows[old(cursorRow) + 1]| && rows[old(cursorRow) + 1][0] == Cell(c, WhiteOnBlack)
    {
      ghost var g := rows;
      var row, col := cursorRow, cursorCol;
      var i := 0;
      while i < |runes|
        invariant 0 <= i <= |runes|
        invariant cursorRow == row && cursorCol == col + i
        invariant rows == if i == 0 then g else Echoed(g, row, col, runes[..i])
      {
        ghost var before := rows;
        TypedRune(runes[i]);
        EchoedPrefixStep(g, row, col, runes, i, before, rows);
        i := i + 1;
      }
      assert runes[..i] == runes;
      ghost var e := Echoed(g, row, col, runes);
      assert rows == e;
      TypedKey(KeyReturn);
      TypedRune(c);
      LineThenNextRow(g, row, col, runes, c);
    }
  }

  /**
   * After runes echoed from (row, col) and one more rune written at column 0
   * of the next row, the echoed runes are still side by side and the last
   * rune starts the next row.
   */
  lemma LineThenNextRow(g: Grid, row: int, col: int, runes: seq<char>, c: char)
    requires 0 <= row && 0 <= col
    ensures row + 1 < |Growth.PutCell(Echoed(g, row, col, runes), row + 1, 0, Cell(c, WhiteOnBlack))|
    ensures runes != [] ==> col + |runes| <= |Growth.PutCell(Echoed(g, row, col, runes), row + 1, 0, Cell(c, WhiteOnBlack))[row]|
    ensures forall i :: 0 <= i < |runes| ==>
              Growth.PutCell(Echoed(g, row, col, runes), row + 1, 0, Cell(c, WhiteOnBlack))[row][col + i] == Cell(runes[i], WhiteOnBlack)
    ensures Growth.PutCell(Echoed(g, row, col, runes), row + 1, 0, Cell(c, WhiteOnBlack))[row + 1][0] == Cell(c, WhiteOnBlack)
  {
    var e := Echoed(g, row, col, runes);
    var p := Growth.PutCell(e, row + 1, 0, Cell(c, WhiteOnBlack));
    EchoedCells(g, row, col, runes);
    Growth.PutCellShape(e, row + 1, 0, Cell(c, WhiteOnBlack));
    assert p[row] == RowOf(e, row);
  }

  /**
   * Runes written at consecutive columns: column col + i of the row holds
   * rune i, white on black; the rest of the row and every other row keep
   * their cells.
   */
  lemma {:induction false} EchoedCells(g: Grid, row: int, col: int, runes: seq<char>)
    requires 0 <= row && 0 <= col
    ensures var e := Echoed(g, row, col, runes);
            |e| >= |g| && |RowOf(e, row)| >= |RowOf(g, row)|
            && (runes != [] ==> row < |e| && col + |runes| <= |e[row]|)
            && (forall i :: 0 <= i < |runes| ==> e[row][col + i] == Cell(runes[i], WhiteOnBlack))
            && (forall c :: 0 <= c < |RowOf(g, row)| && !(col <= c < col + |runes|) ==> e[row][c] == g[row][c])
            && (forall r :: 0 <= r && r != row ==> RowOf(e, r) == RowOf(g, r))
    decreases |runes|
  {
    if runes != [] {
      var init := runes[..|runes| - 1];
      EchoedCells(g, row, col, init);
      var p := Echoed(g, row, col, init);
      var k := |runes| - 1;
      Growth.PutCellShape(p, row, col + k, Cell(runes[k], WhiteOnBlack));
      var e := Echoed(g, row, col, runes);
      forall i | 0 <= i < |runes|
        ensures e[row][col + i] == Cell(runes[i], WhiteOnBlack)
      {
        if i < k {
          assert init[i] == runes[i];
        }
      }
      forall r | 0 <= r && r != row
        ensures RowOf(e, r) == RowOf(g, r)
      {
        assert RowOf(e, r) == RowOf(p, r);
      }
    }
  }
}
