/**
 * Keyboard input of the nvim package: each fyne input event becomes one
 * string in Neovim key notation, which the widget hands to the engine's
 * Input call. Each handler is modelled by the string it sends.
 */
module Input {
  import opened Go
  import opened Fyne
  import KeyMap

  /** A fyne shortcut: a key with held modifiers (desktop.CustomShortcut), or any other kind. */
  datatype Shortcut =
    | CustomShortcut(keyName: KeyName, modifier: KeyModifier)
    | OtherShortcut(shortcutName: string)

  /** TypedRune: a typed rune is sent on its own, as a one-rune string. */
  function TypedRune(r: char): (sent: string)
    ensures |sent| == 1 && sent[0] == r
  {
    [r]
  }

  /** TypedKey: the key's entry in the key table; a key missing from it sends the empty string. */
  function TypedKey(name: KeyName): (sent: string)
    ensures name in KeyMap.NeovimKeyMap ==> sent == KeyMap.NeovimKeyMap[name]
    ensures name !in KeyMap.NeovimKeyMap ==> sent == ""
  {
    if name in KeyMap.NeovimKeyMap then KeyMap.NeovimKeyMap[name] else ""
  }

  /**
   * The byte a shortcut names its key by: the first byte of the key name, a
   * space for the Space key, '@' for the key named "@".
   */
  function ShortcutChar(keyName: KeyName): (c: byte)
    requires |keyName| > 0
    ensures keyName == KeySpace ==> c == 0x20
    ensures keyName == "@" ==> c == 0x40
    ensures keyName != KeySpace && keyName != "@" ==> c == Utf8LeadByte(keyName[0])
  {
    if keyName == KeySpace then 0x20
    else if keyName == "@" then 0x40
    else Utf8LeadByte(keyName[0])
  }

  /** The modifier table's entry for `m`, or the empty string for a value missing from it. */
  function ModifierText(m: KeyModifier): string
  {
    if m in KeyMap.NeovimModifierMap then KeyMap.NeovimModifierMap[m] else ""
  }

  /**
   * TypedShortcut: a custom shortcut sends "<", the modifiers' prefix, the
   * key's byte as a rune, and ">"; any other shortcut sends nothing.
   */
  function TypedShortcut(s: Shortcut): (sent: Option<string>)
    requires s.CustomShortcut? ==> |s.keyName| > 0
    ensures s.OtherShortcut? <==> sent.None?
  {
    match s
    case CustomShortcut(keyName, modifier) =>
      Some("<" + ModifierText(modifier) + [ByteRune(ShortcutChar(keyName))] + ">")
    case OtherShortcut(_) => None
  }

  /** A typed key sends either nothing or one bracketed key notation. */
  lemma TypedKeyIsNotation(name: KeyName)
    ensures TypedKey(name) == "" || KeyMap.Bracketed(TypedKey(name))
  {
    KeyMap.KeyMapBracketed();
  }

  /**
   * A custom shortcut with a non-empty set of held modifiers sends the
   * S-A-C-M prefix of that set before the key's byte, all in angle brackets.
   */
  lemma ShortcutWithModifiers(keyName: KeyName, shift: bool, alt: bool, control: bool, super: bool)
    requires |keyName| > 0 && (shift || alt || control || super)
    ensures TypedShortcut(CustomShortcut(keyName, KeyMap.Flags(shift, alt, control, super)))
            == Some("<" + KeyMap.Prefix(shift, alt, control, super) + [ByteRune(ShortcutChar(keyName))] + ">")
  {
    KeyMap.ModifierMapPrefixes(shift, alt, control, super);
  }

  /** A modifier value the table does not list, such as 0 or 16, adds no prefix: "<x>". */
  lemma ShortcutWithUnlistedModifier(keyName: KeyName, m: KeyModifier)
    requires |keyName| > 0 && (m <= 0 || 16 <= m)
    ensures TypedShortcut(CustomShortcut(keyName, m)) == Some(['<', ByteRune(ShortcutChar(keyName)), '>'])
  {
    KeyMap.ModifierMapDomain(m);
    var c := ByteRune(ShortcutChar(keyName));
    assert ModifierText(m) == "";
    assert "<" + "" + [c] + ">" == ['<', c, '>'];
  }

  /** Every custom shortcut sends one bracketed notation with the key's byte right before the '>'. */
  lemma ShortcutIsNotation(s: Shortcut)
    requires s.CustomShortcut? && |s.keyName| > 0
    ensures var sent := TypedShortcut(s).value;
            KeyMap.Bracketed(sent) && sent[|sent| - 2] == ByteRune(ShortcutChar(s.keyName))
  {
  }

  /**
   * The input paths never send the same string: a typed rune sends one
   * character, a typed key nothing or a bracketed name of at least four
   * characters, a shortcut a bracketed string of at least three.
   */
  lemma InputPathsDiffer(r: char, name: KeyName, s: Shortcut)
    requires s.CustomShortcut? ==> |s.keyName| > 0
    ensures TypedKey(name) == "" || (KeyMap.Bracketed(TypedKey(name)) && |TypedKey(name)| >= 4)
    ensures TypedRune(r) != TypedKey(name)
    ensures s.CustomShortcut? ==> |TypedShortcut(s).value| >= 3 && TypedShortcut(s).value != TypedRune(r)
  {
    KeyMap.KeyMapBracketed();
  }

  /**
   * The character a shortcut names its key by: Space gives ' '; a name
   * starting with an ASCII character gives that character (so the "@" case
   * gives what the general case would); a name starting with any other
   * character gives only the lead byte of its UTF-8 encoding, at least 0xC2.
   */
  lemma ShortcutCharOfName(keyName: KeyName)
    requires |keyName| > 0
    ensures keyName == KeySpace ==> ByteRune(ShortcutChar(keyName)) == ' '
    ensures keyName != KeySpace && (keyName[0] as int) < 0x80 ==> ByteRune(ShortcutChar(keyName)) == keyName[0]
    ensures (keyName[0] as int) >= 0x80 ==> ShortcutChar(keyName) >= 0xC2
  {
  }

  /** Examples: Control+Space sends "<C- >" and Shift+Alt+"A" sends "<S-A-A>". */
  lemma ShortcutExamples()
    ensures TypedShortcut(CustomShortcut(KeySpace, KeyModifierControl)) == Some("<C- >")
    ensures TypedShortcut(CustomShortcut("A", KeyMap.Flags(true, true, false, false))) == Some("<S-A-A>")
  {
    ShortcutWithModifiers(KeySpace, false, false, true, false);
    assert KeyMap.Flags(false, false, true, false) == KeyModifierControl;
    assert ByteRune(ShortcutChar(KeySpace)) == ' ';
    assert KeyMap.Prefix(false, false, true, false) == "C-";
    assert "<" + "C-" + [' '] + ">" == "<C- >";
    ShortcutWithModifiers("A", true, true, false, false);
    assert ByteRune(ShortcutChar("A")) == 'A';
    assert KeyMap.Prefix(true, true, false, false) == "S-A-";
    assert "<" + "S-A-" + ['A'] + ">" == "<S-A-A>";
  }
}
