/**
 * Growing the text grid on demand and replacing one cell: the two append
 * loops of fillGrid followed by SetCell, which the writeRune of both
 * revisions performs (the newer one in the highlight's style, the older one
 * white on black).
 */
module Growth {
  import opened Go
  import opened Fyne

  /**
   * The grid after fillGrid(row, col, ...) with padding cell `pad`: rows are
   * appended up to `row`, then row `row` is padded up to column `col`.
   */
  function Filled(g: Grid, row: int, col: int, pad: Cell): (f: Grid)
    requires 0 <= row
    ensures |f| == Max(|g|, row + 1)
    ensures |f[row]| == Max(|RowOf(g, row)|, col + 1)
    decreases Max(row + 1 - |g|, 0), Max(col + 1 - |RowOf(g, row)|, 0)
  {
    if |g| <= row then Filled(g + [[]], row, col, pad)
    else if |g[row]| <= col then Filled(g[row := g[row] + [pad]], row, col, pad)
    else g
  }

  /**
   * The grid after writeRune stores `cell` at (row, col): fillGrid pads with
   * spaces in the cell's own style, then SetCell replaces the cell.
   */
  function PutCell(g: Grid, row: int, col: int, cell: Cell): (p: Grid)
    requires 0 <= row && 0 <= col
    ensures |p| == Max(|g|, row + 1)
    ensures |p[row]| == Max(|RowOf(g, row)|, col + 1)
    ensures p[row][col] == cell
  {
    var f := Filled(g, row, col, Cell(' ', cell.style));
    f[row := f[row][col := cell]]
  }

  /**
   * fillGrid only adds: every other row is as before, row `row` keeps its
   * cells and is padded with `pad`, and a grid that already has (row, col)
   * is left as it is.
   */
  lemma {:induction false} FilledShape(g: Grid, row: int, col: int, pad: Cell)
    requires 0 <= row
    ensures forall i :: 0 <= i < |Filled(g, row, col, pad)| && i != row ==> Filled(g, row, col, pad)[i] == RowOf(g, i)
    ensures forall c :: 0 <= c < |Filled(g, row, col, pad)[row]| ==>
              Filled(g, row, col, pad)[row][c] == if c < |RowOf(g, row)| then g[row][c] else pad
    ensures row < |g| && col < |g[row]| ==> Filled(g, row, col, pad) == g
    decreases Max(row + 1 - |g|, 0), Max(col + 1 - |RowOf(g, row)|, 0)
  {
    if |g| <= row {
      FilledShape(g + [[]], row, col, pad);
    } else if |g[row]| <= col {
      FilledShape(g[row := g[row] + [pad]], row, col, pad);
    }
  }

  /**
   * writeRune changes one cell: every other row is as before, and every
   * other cell of row `row` is as before or a space in the new cell's style.
   */
  lemma PutCellShape(g: Grid, row: int, col: int, cell: Cell)
    requires 0 <= row && 0 <= col
    ensures forall i :: 0 <= i < |PutCell(g, row, col, cell)| && i != row ==> PutCell(g, row, col, cell)[i] == RowOf(g, i)
    ensures forall c :: 0 <= c < |PutCell(g, row, col, cell)[row]| && c != col ==>
              PutCell(g, row, col, cell)[row][c] == if c < |RowOf(g, row)| then g[row][c] else Cell(' ', cell.style)
  {
    FilledShape(g, row, col, Cell(' ', cell.style));
  }

  /** fillGrid twice is fillGrid once, and it never shrinks or changes an existing cell. */
  lemma FilledIdempotent(g: Grid, row: int, col: int, pad: Cell)
    requires 0 <= row
    ensures Filled(Filled(g, row, col, pad), row, col, pad) == Filled(g, row, col, pad)
    ensures forall i, c :: 0 <= i < |g| && 0 <= c < |g[i]| ==>
              i < |Filled(g, row, col, pad)| && c < |Filled(g, row, col, pad)[i]| && Filled(g, row, col, pad)[i][c] == g[i][c]
  {
    var f := Filled(g, row, col, pad);
    FilledShape(g, row, col, pad);
    FilledShape(f, row, col, pad);
    forall i, c | 0 <= i < |g| && 0 <= c < |g[i]|
      ensures i < |f| && c < |f[i]| && f[i][c] == g[i][c]
    {
      if i != row {
        assert f[i] == RowOf(g, i);
      }
    }
  }
}
