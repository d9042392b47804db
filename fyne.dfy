/**
 * The toolkit types the screen model is built on: Go's image/color values,
 * the text grid of the fyne widget library (rows of cells, each a rune with a
 * foreground/background style), fyne's key names and key-modifier flags.
 * Only the parts that the modelled code reads or writes are declared.
 */
module Fyne {
  import opened Go

  /**
   * A colour value. `RGBA` is color.RGBA and `Gray16` is color.Gray16 (the
   * type of color.White and color.Black). Go compares colours as interface
   * values, so two colours of different concrete types are never equal, and
   * the datatype keeps the two apart in the same way. `Sentinel` stands for
   * the nvim package's RGBA_SENTINEL, the reserved "unset" colour.
   */
  datatype Color = RGBA(r: byte, g: byte, b: byte, a: byte) | Gray16(y: uint16) | Sentinel

  const White: Color := Gray16(0xffff)
  const Black: Color := Gray16(0)

  /** widget.CustomTextGridStyle; TextColor() is fg and BackgroundColor() is bg. */
  datatype Style = Style(fg: Color, bg: Color)

  /** widget.TextGridCell. */
  datatype Cell = Cell(rune: char, style: Style)

  /** widget.TextGrid.Rows: a ragged sequence of rows of cells. */
  type Grid = seq<seq<Cell>>

  /** Row `r` of `g`, or the empty row when `g` has no row `r`. */
  function RowOf(g: Grid, r: int): seq<Cell>
  {
    if 0 <= r < |g| then g[r] else []
  }

  /** fyne.KeyName: a key's name as a string. */
  type KeyName = string

  const KeyEscape: KeyName := "Escape"
  const KeyReturn: KeyName := "Return"
  const KeyTab: KeyName := "Tab"
  const KeyBackspace: KeyName := "BackSpace"
  const KeyInsert: KeyName := "Insert"
  const KeyDelete: KeyName := "Delete"
  const KeyRight: KeyName := "Right"
  const KeyLeft: KeyName := "Left"
  const KeyDown: KeyName := "Down"
  const KeyUp: KeyName := "Up"
  const KeyPageUp: KeyName := "Prior"
  const KeyPageDown: KeyName := "Next"
  const KeyHome: KeyName := "Home"
  const KeyEnd: KeyName := "End"
  const KeyF1: KeyName := "F1"
  const KeyF2: KeyName := "F2"
  const KeyF3: KeyName := "F3"
  const KeyF4: KeyName := "F4"
  const KeyF5: KeyName := "F5"
  const KeyF6: KeyName := "F6"
  const KeyF7: KeyName := "F7"
  const KeyF8: KeyName := "F8"
  const KeyF9: KeyName := "F9"
  const KeyF10: KeyName := "F10"
  const KeyF11: KeyName := "F11"
  const KeyF12: KeyName := "F12"
  const KeyEnter: KeyName := "KP_Enter"
  const KeySpace: KeyName := "Space"

  /** fyne.KeyModifier: a set of held modifier keys, one bit each (a Go int). */
  type KeyModifier = int

  const KeyModifierShift: KeyModifier := 1
  const KeyModifierControl: KeyModifier := 2
  const KeyModifierAlt: KeyModifier := 4
  const KeyModifierSuper: KeyModifier := 8
}
