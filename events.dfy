/**
 * The redraw-event dispatcher of the older package main. An event is a
 * decoded msgpack array whose first element names it; of all the names
 * Neovim's UI protocol sends, only cursor_goto and put change anything.
 */
module LegacyEvents {
  import opened Go
  import opened Fyne
  import Legacy

  newtype int64 = x: int | -0x8000_0000_0000_0000 <= x < 0x8000_0000_0000_0000

  /**
   * A decoded msgpack value, as far as the dispatcher looks at it: a signed
   * integer, a string of bytes, an array, or anything else (unsigned
   * integers, booleans, nil, maps, ...).
   */
  datatype Value =
    | Int64(i: int64)
    | Str(bytes: seq<byte>)
    | Array(items: seq<Value>)
    | Other

  /** The bytes of a name made of ASCII characters. */
  function Ascii(s: string): (b: seq<byte>)
    requires forall i | 0 <= i < |s| :: s[i] as int < 0x80
    ensures |b| == |s| && forall i | 0 <= i < |s| :: b[i] as int == s[i] as int
  {
    seq(|s|, i requires 0 <= i < |s| => s[i] as int as byte)
  }

  const CursorGoto: Value := Str(Ascii("cursor_goto"))
  const Put: Value := Str(Ascii("put"))

  /** `row, _ := v.(int64)`: the value of a signed integer, 0 for anything else. */
  function AsInt(v: Value): (n: int)
    ensures v.Int64? ==> n == v.i as int
    ensures !v.Int64? ==> n == 0
  {
    if v.Int64? then v.i as int else 0
  }

  /** A put parameter group the dispatcher can read: an array whose first element is a non-empty string. */
  predicate PutGroup(v: Value)
  {
    v.Array? && |v.items| > 0 && v.items[0].Str? && |v.items[0].bytes| > 0
  }

  /** The first byte of a put group's text: the one byte put writes for it. */
  function FirstByte(v: Value): byte
    requires PutGroup(v)
  {
    v.items[0].bytes[0]
  }

  /** The runes put writes for `groups`: the first byte of each group's text, in order. */
  function PutRunes(groups: seq<Value>): (runes: seq<char>)
    requires forall k | 0 <= k < |groups| :: PutGroup(groups[k])
    ensures |runes| == |groups|
    ensures forall i | 0 <= i < |groups| :: runes[i] == ByteRune(FirstByte(groups[i]))
    decreases |groups|
  {
    if groups == [] then []
    else
      var last := groups[|groups| - 1];
      assert PutGroup(last);
      PutRunes(groups[..|groups| - 1]) + [ByteRune(FirstByte(last))]
  }

  /**
   * What HandleNvimEvent reads without failing: the event's name exists; a
   * cursor_goto has a first parameter array of at least two entries; every
   * parameter group of a put is readable.
   */
  predicate Readable(event: seq<Value>)
  {
    |event| > 0
    && (event[0] == CursorGoto ==> |event| > 1 && event[1].Array? && |event[1].items| >= 2)
    && (event[0] == Put ==> forall k | 1 <= k < |event| :: PutGroup(event[k]))
  }

  /**
   * The put case: each group's first byte written at the cursor in turn, the
   * cursor moving one column right after each.
   */
  method PutAll(n: Legacy.NeoVim, groups: seq<Value>)
    requires forall k | 0 <= k < |groups| :: PutGroup(groups[k])
    requires groups != [] ==> 0 <= n.cursorRow && 0 <= n.cursorCol
    modifies n
    ensures groups == [] ==> n.rows == old(n.rows)
    ensures groups != [] ==> n.rows == Legacy.Echoed(old(n.rows), old(n.cursorRow), old(n.cursorCol), PutRunes(groups))
    ensures n.cursorRow == old(n.cursorRow) && n.cursorCol == old(n.cursorCol) + |groups|
  {
    ghost var g, row, col := n.rows, n.cursorRow, n.cursorCol;
    ghost var runes := PutRunes(groups);
    var i := 0;
    while i < |groups|
      invariant 0 <= i <= |groups|
      invariant n.cursorRow == row && n.cursorCol == col + i
      invariant n.rows == if i == 0 then g else Legacy.Echoed(g, row, col, runes[..i])
    {
      var r := FirstByte(groups[i]);
      ghost var before := n.rows;
      n.WriteRune(ByteRune(r));
      Legacy.EchoedPrefixStep(g, row, col, runes, i, before, n.rows);
      i := i + 1;
    }
    assert runes[..i] == runes;
  }

  /**
   * After a put, column col + i of the cursor row holds the first byte of
   * group i's text, white on black; every other cell that existed is kept.
   */
  lemma PutCells(g: Grid, row: int, col: int, groups: seq<Value>)
    requires forall k | 0 <= k < |groups| :: PutGroup(groups[k])
    requires 0 <= row && 0 <= col
    ensures var e := Legacy.Echoed(g, row, col, PutRunes(groups));
            (groups != [] ==> row < |e| && col + |groups| <= |e[row]|)
            && (forall i | 0 <= i < |groups| ::
                  e[row][col + i] == Cell(ByteRune(FirstByte(groups[i])), Legacy.WhiteOnBlack))
            && |RowOf(e, row)| >= |RowOf(g, row)|
            && (forall c | 0 <= c < |RowOf(g, row)| && !(col <= c < col + |groups|) :: RowOf(e, row)[c] == g[row][c])
            && (forall r | 0 <= r && r != row :: RowOf(e, r) == RowOf(g, r))
  {
    Legacy.EchoedCells(g, row, col, PutRunes(groups));
  }

  /**
   * HandleNvimEvent: cursor_goto moves the cursor to the row and column of
   * its first parameter array; put writes the first byte of each group's text
   * at the cursor, moving right after each; every other event changes nothing.
   */
  method HandleNvimEvent(n: Legacy.NeoVim, event: seq<Value>)
    requires Readable(event)
    requires event[0] == Put && |event| > 1 ==> 0 <= n.cursorRow && 0 <= n.cursorCol
    modifies n
    ensures event[0] == CursorGoto ==>
              n.cursorRow == AsInt(event[1].items[0]) && n.cursorCol == AsInt(event[1].items[1]) && n.rows == old(n.rows)
    ensures event[0] == Put ==>
              (|event| > 1 ==> n.rows == Legacy.Echoed(old(n.rows), old(n.cursorRow), old(n.cursorCol), PutRunes(event[1..])))
              && (|event| == 1 ==> n.rows == old(n.rows))
              && n.cursorRow == old(n.cursorRow) && n.cursorCol == old(n.cursorCol) + |event| - 1
    ensures event[0] != CursorGoto && event[0] != Put ==>
              n.rows == old(n.rows) && n.cursorRow == old(n.cursorRow) && n.cursorCol == old(n.cursorCol)
  {
    if event[0] == CursorGoto {
      var pos := event[1].items;
      var row := AsInt(pos[0]);
      var col := AsInt(pos[1]);
      n.cursorRow := row;
      n.cursorCol := col;
    } else if event[0] == Put {
      PutAll(n, event[1..]);
    }
  }
}
