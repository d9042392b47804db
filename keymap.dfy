/**
 * The key tables of the nvim package: the keys fyne reports to TypedKey
 * rather than TypedRune, with their Neovim key notation, and the prefix
 * Neovim's notation writes for each combination of held modifiers.
 */
module KeyMap {
  import opened Go
  import opened Fyne

  /** neovimKeyMap. */
  const NeovimKeyMap: map<KeyName, string> := map[
    KeyEscape := "<Esc>",
    KeyReturn := "<CR>",
    KeyTab := "<Tab>",
    KeyBackspace := "<BS>",
    KeyInsert := "<Insert>",
    KeyDelete := "<Del>",
    KeyRight := "<Right>",
    KeyLeft := "<Left>",
    KeyDown := "<Down>",
    KeyUp := "<Up>",
    KeyPageUp := "<PageUp>",
    KeyPageDown := "<PageDown>",
    KeyHome := "<Home>",
    KeyEnd := "<End>",
    KeyF1 := "<F1>",
    KeyF2 := "<F2>",
    KeyF3 := "<F3>",
    KeyF4 := "<F4>",
    KeyF5 := "<F5>",
    KeyF6 := "<F6>",
    KeyF7 := "<F7>",
    KeyF8 := "<F8>",
    KeyF9 := "<F9>",
    KeyF10 := "<F10>",
    KeyF11 := "<F11>",
    KeyF12 := "<F12>",
    KeyEnter := "<CR>"
  ]

  /** neovimModifierMap: the four modifiers and every combination of them. */
  const NeovimModifierMap: map<KeyModifier, string> := map[
    KeyModifierShift := "S-",
    KeyModifierAlt := "A-",
    KeyModifierControl := "C-",
    KeyModifierSuper := "M-",
    BitOr(KeyModifierShift, KeyModifierAlt) := "S-A-",
    BitOr(KeyModifierShift, KeyModifierControl) := "S-C-",
    BitOr(KeyModifierShift, KeyModifierSuper) := "S-M-",
    BitOr(KeyModifierAlt, KeyModifierControl) := "A-C-",
    BitOr(KeyModifierAlt, KeyModifierSuper) := "A-M-",
    BitOr(KeyModifierControl, KeyModifierSuper) := "C-M-",
    BitOr(BitOr(KeyModifierShift, KeyModifierAlt), KeyModifierControl) := "S-A-C-",
    BitOr(BitOr(KeyModifierShift, KeyModifierAlt), KeyModifierSuper) := "S-A-M-",
    BitOr(BitOr(KeyModifierShift, KeyModifierControl), KeyModifierSuper) := "S-C-M-",
    BitOr(BitOr(KeyModifierAlt, KeyModifierControl), KeyModifierSuper) := "A-C-M-",
    BitOr(BitOr(BitOr(KeyModifierShift, KeyModifierAlt), KeyModifierControl), KeyModifierSuper) := "S-A-C-M-"
  ]

  /** Neovim key notation: a name between angle brackets. */
  predicate Bracketed(s: string)
  {
    |s| >= 2 && s[0] == '<' && s[|s| - 1] == '>'
  }

  /** The KeyModifier value for a set of held modifiers: the bit of each one held, or-ed together. */
  function Flags(shift: bool, alt: bool, control: bool, super: bool): KeyModifier
  {
    BitOr(BitOr(BitOr(if shift then KeyModifierShift else 0, if alt then KeyModifierAlt else 0),
                if control then KeyModifierControl else 0),
          if super then KeyModifierSuper else 0)
  }

  /**
   * Neovim's prefix for a set of held modifiers: the letter of each one held,
   * in the order S (Shift), A (Alt), C (Control), M (Super), each followed by '-'.
   */
  function Prefix(shift: bool, alt: bool, control: bool, super: bool): string
  {
    (if shift then "S-" else "") + (if alt then "A-" else "") + (if control then "C-" else "") + (if super then "M-" else "")
  }

  /** The name fyne gives function key `i`: "F1" .. "F12". */
  function FunctionKeyName(i: int): (name: KeyName)
    requires 1 <= i <= 12
    ensures |name| == if i < 10 then 2 else 3
    ensures name[0] == 'F'
  {
    if i < 10 then ['F', ('0' as int + i) as char] else ['F', '1', ('0' as int + i - 10) as char]
  }

  /** Every value of the key table is in Neovim key notation, a name of at least two characters in angle brackets. */
  lemma KeyMapBracketed()
    ensures forall k | k in NeovimKeyMap :: Bracketed(NeovimKeyMap[k])
    ensures forall k | k in NeovimKeyMap :: |NeovimKeyMap[k]| >= 4
  {
  }

  /** Both Return and the keypad's Enter send a carriage return. */
  lemma ReturnAndEnterAreCR()
    ensures KeyReturn in NeovimKeyMap && NeovimKeyMap[KeyReturn] == "<CR>"
    ensures KeyEnter in NeovimKeyMap && NeovimKeyMap[KeyEnter] == "<CR>"
  {
  }

  /** Function key Fi sends <Fi>. */
  lemma FunctionKeysMapToThemselves(i: int)
    requires 1 <= i <= 12
    ensures FunctionKeyName(i) in NeovimKeyMap
    ensures NeovimKeyMap[FunctionKeyName(i)] == "<" + FunctionKeyName(i) + ">"
  {
  }

  /** The values of the combined keys of the modifier table. */
  lemma CombinedKeys()
    ensures BitOr(KeyModifierShift, KeyModifierAlt) == 5
    ensures BitOr(KeyModifierShift, KeyModifierControl) == 3
    ensures BitOr(KeyModifierShift, KeyModifierSuper) == 9
    ensures BitOr(KeyModifierAlt, KeyModifierControl) == 6
    ensures BitOr(KeyModifierAlt, KeyModifierSuper) == 12
    ensures BitOr(KeyModifierControl, KeyModifierSuper) == 10
    ensures BitOr(5, KeyModifierControl) == 7
    ensures BitOr(5, KeyModifierSuper) == 13
    ensures BitOr(3, KeyModifierSuper) == 11
    ensures BitOr(6, KeyModifierSuper) == 14
    ensures BitOr(7, KeyModifierSuper) == 15
  {
  }

  /** The four flags are distinct bits, so every set of held modifiers has its own value, from 0 to 15. */
  lemma FlagsAreDistinctBits(shift: bool, alt: bool, control: bool, super: bool)
    ensures Flags(shift, alt, control, super)
            == (if shift then 1 else 0) + (if control then 2 else 0) + (if alt then 4 else 0) + (if super then 8 else 0)
  {
    CombinedKeys();
  }

  /** The modifier table has an entry for exactly the values 1 to 15: the non-empty sets of held modifiers. */
  lemma ModifierMapDomain(m: KeyModifier)
    ensures m in NeovimModifierMap <==> 0 < m < 16
  {
    CombinedKeys();
  }

  /** Every non-empty set of held modifiers is in the table, with its S-A-C-M prefix. */
  lemma ModifierMapPrefixes(shift: bool, alt: bool, control: bool, super: bool)
    requires shift || alt || control || super
    ensures Flags(shift, alt, control, super) in NeovimModifierMap
    ensures NeovimModifierMap[Flags(shift, alt, control, super)] == Prefix(shift, alt, control, super)
  {
    CombinedKeys();
    FlagsAreDistinctBits(shift, alt, control, super);
  }
}
