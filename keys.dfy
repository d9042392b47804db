/**
 * The key table of the older package main: the keys fyne reports to
 * TypedKey rather than TypedRune, with their Neovim key notation.
 */
module OldKeys {
  import opened Go
  import opened Fyne
  import KeyMap

  /** neovimKeyMap of the older revision. */
  const NeovimKeyMap: map<KeyName, string> := map[
    KeyEscape := "<Esc>",
    KeyReturn := "<CR>",
    KeyTab := "<Tab>",
    KeyBackspace := "<BS>",
    KeyInsert := "<Insert>",
    KeyDelete := "<Del>",
    KeyRight := "<Right>",
    KeyLeft := "<Left>",
    KeyDown := "<Down>",
    KeyUp := "<Up>",
    KeyPageUp := "<PageUp>",
    KeyPageDown := "<PageDown>",
    KeyHome := "<Home>",
    KeyEnd := "<End>",
    KeyF1 := "<F1>",
    KeyF2 := "<F2>",
    KeyF3 := "<F3>",
    KeyF4 := "<F4>",
    KeyF5 := "<F5>",
    KeyF6 := "<F6>",
    KeyF7 := "<F7>",
    KeyF8 := "<F8>",
    KeyF9 := "<F9>",
    KeyF10 := "<F10>",
    KeyF11 := "<F11>",
    KeyF12 := "<F12>",
    KeyEnter := "<CR>"
  ]

  /** The older table is entry for entry the one the nvim package kept. */
  lemma SameAsNewerTable()
    ensures NeovimKeyMap == KeyMap.NeovimKeyMap
  {
  }

  /** Every value is in Neovim key notation. */
  lemma ValuesBracketed()
    ensures forall k | k in NeovimKeyMap :: KeyMap.Bracketed(NeovimKeyMap[k])
  {
    SameAsNewerTable();
    KeyMap.KeyMapBracketed();
  }

  /** Return and Enter send a carriage return, Escape <Esc> and BackSpace <BS>. */
  lemma EditingKeys()
    ensures KeyReturn in NeovimKeyMap && NeovimKeyMap[KeyReturn] == "<CR>"
    ensures KeyEnter in NeovimKeyMap && NeovimKeyMap[KeyEnter] == "<CR>"
    ensures KeyEscape in NeovimKeyMap && NeovimKeyMap[KeyEscape] == "<Esc>"
    ensures KeyBackspace in NeovimKeyMap && NeovimKeyMap[KeyBackspace] == "<BS>"
  {
  }

  /** Function key Fi sends <Fi>. */
  lemma FunctionKeys(i: int)
    requires 1 <= i <= 12
    ensures KeyMap.FunctionKeyName(i) in NeovimKeyMap
    ensures NeovimKeyMap[KeyMap.FunctionKeyName(i)] == "<" + KeyMap.FunctionKeyName(i) + ">"
  {
    SameAsNewerTable();
    KeyMap.FunctionKeysMapToThemselves(i);
  }
}
