/** Keysyms, keymap entries and dead-key decomposition: src/protocols/nebulardp/keymap.h and
    src/protocols/nebulardp/decompose.c. */
module Keymaps {
  import opened Options

  const NUM_LOCK := 0xFF7F
  const SCROLL_LOCK := 0xFF14
  const CAPS_LOCK := 0xFFE5
  const KANA_LOCK := 0xFF2D
  const LSHIFT := 0xFFE1
  const RSHIFT := 0xFFE2
  const LCTRL := 0xFFE3
  const RCTRL := 0xFFE4
  const LALT := 0xFFE9
  const RALT := 0xFFEA
  const ALTGR := 0xFE03

  /** The modifiers of src/protocols/nebulardp/keymap.h, of which masks are sets. */
  datatype Modifier = ModifierShift | ModifierAltGr

  /** The lock keys of the TS_SYNC_EVENT of the Remote Desktop Protocol, of which masks are sets. */
  datatype Lock = ScrollLock | NumLock | CapsLock | KanaLock

  /** guac_rdp_keysym_desc */
  datatype Desc = Desc(keysym: int, scancode: int, flags: int,
                       setModifiers: set<Modifier>, clearModifiers: set<Modifier>,
                       setLocks: set<Lock>, clearLocks: set<Lock>)

  /** guac_rdp_keyboard_lock_flag */
  function LockFlag(keysym: int): set<Lock> {
    if keysym == SCROLL_LOCK then {ScrollLock}
    else if keysym == KANA_LOCK then {KanaLock}
    else if keysym == NUM_LOCK then {NumLock}
    else if keysym == CAPS_LOCK then {CapsLock}
    else {}
  }

  /** The keys that the keyboard presses and releases on its own to change modifiers. */
  predicate IsModifier(keysym: int) {
    keysym in {LSHIFT, RSHIFT, LCTRL, RCTRL, LALT, RALT, ALTGR}
  }

  const DEAD_GRAVE := 0xFE50
  const DEAD_ACUTE := 0xFE51
  const DEAD_CIRCUMFLEX := 0xFE52
  const DEAD_TILDE := 0xFE53
  const DEAD_DIERESIS := 0xFE57
  const DEAD_ABOVERING := 0xFE58
  const SPACE := ' ' as int

  datatype Pair = Pair(dead: int, base: int)

  /** guac_rdp_decomposed_keys */
  function Decomposition(keysym: int): Option<Pair> {
    match keysym
    case 94 => Some(Pair(DEAD_CIRCUMFLEX, SPACE))
    case 96 => Some(Pair(DEAD_GRAVE, SPACE))
    case 126 => Some(Pair(DEAD_TILDE, SPACE))
    case 168 => Some(Pair(DEAD_DIERESIS, SPACE))
    case 180 => Some(Pair(DEAD_ACUTE, SPACE))
    case 192 => Some(Pair(DEAD_GRAVE, 'A' as int))
    case 193 => Some(Pair(DEAD_ACUTE, 'A' as int))
    case 194 => Some(Pair(DEAD_CIRCUMFLEX, 'A' as int))
    case 195 => Some(Pair(DEAD_TILDE, 'A' as int))
    case 196 => Some(Pair(DEAD_DIERESIS, 'A' as int))
    case 197 => Some(Pair(DEAD_ABOVERING, 'A' as int))
    case 200 => Some(Pair(DEAD_GRAVE, 'E' as int))
    case 201 => Some(Pair(DEAD_ACUTE, 'E' as int))
    case 202 => Some(Pair(DEAD_CIRCUMFLEX, 'E' as int))
    case 203 => Some(Pair(DEAD_DIERESIS, 'E' as int))
    case 204 => Some(Pair(DEAD_GRAVE, 'I' as int))
    case 205 => Some(Pair(DEAD_ACUTE, 'I' as int))
    case 206 => Some(Pair(DEAD_CIRCUMFLEX, 'I' as int))
    case 207 => Some(Pair(DEAD_DIERESIS, 'I' as int))
    case 209 => Some(Pair(DEAD_TILDE, 'N' as int))
    case 210 => Some(Pair(DEAD_GRAVE, 'O' as int))
    case 211 => Some(Pair(DEAD_ACUTE, 'O' as int))
    case 212 => Some(Pair(DEAD_CIRCUMFLEX, 'O' as int))
    case 213 => Some(Pair(DEAD_TILDE, 'O' as int))
    case 214 => Some(Pair(DEAD_DIERESIS, 'O' as int))
    case 217 => Some(Pair(DEAD_GRAVE, 'U' as int))
    case 218 => Some(Pair(DEAD_ACUTE, 'U' as int))
    case 219 => Some(Pair(DEAD_CIRCUMFLEX, 'U' as int))
    case 220 => Some(Pair(DEAD_DIERESIS, 'U' as int))
    case 221 => Some(Pair(DEAD_ACUTE, 'Y' as int))
    case 224 => Some(Pair(DEAD_GRAVE, 'a' as int))
    case 225 => Some(Pair(DEAD_ACUTE, 'a' as int))
    case 226 => Some(Pair(DEAD_CIRCUMFLEX, 'a' as int))
    case 227 => Some(Pair(DEAD_TILDE, 'a' as int))
    case 228 => Some(Pair(DEAD_DIERESIS, 'a' as int))
    case 229 => Some(Pair(DEAD_ABOVERING, 'a' as int))
    case 232 => Some(Pair(DEAD_GRAVE, 'e' as int))
    case 233 => Some(Pair(DEAD_ACUTE, 'e' as int))
    case 234 => Some(Pair(DEAD_CIRCUMFLEX, 'e' as int))
    case 235 => Some(Pair(DEAD_DIERESIS, 'e' as int))
    case 236 => Some(Pair(DEAD_GRAVE, 'i' as int))
    case 237 => Some(Pair(DEAD_ACUTE, 'i' as int))
    case 238 => Some(Pair(DEAD_CIRCUMFLEX, 'i' as int))
    case 239 => Some(Pair(DEAD_DIERESIS, 'i' as int))
    case 241 => Some(Pair(DEAD_TILDE, 'n' as int))
    case 242 => Some(Pair(DEAD_GRAVE, 'o' as int))
    case 243 => Some(Pair(DEAD_ACUTE, 'o' as int))
    case 244 => Some(Pair(DEAD_CIRCUMFLEX, 'o' as int))
    case 245 => Some(Pair(DEAD_TILDE, 'o' as int))
    case 246 => Some(Pair(DEAD_DIERESIS, 'o' as int))
    case 249 => Some(Pair(DEAD_GRAVE, 'u' as int))
    case 250 => Some(Pair(DEAD_ACUTE, 'u' as int))
    case 251 => Some(Pair(DEAD_CIRCUMFLEX, 'u' as int))
    case 252 => Some(Pair(DEAD_DIERESIS, 'u' as int))
    case 253 => Some(Pair(DEAD_ACUTE, 'y' as int))
    case 255 => Some(Pair(DEAD_DIERESIS, 'y' as int))
    case _ => None
  }

  /** Keysyms that have no decomposition whatever the table says: those that are not in its range,
      and the characters that occur as the base of one. */
  predicate Simple(keysym: int) {
    keysym < 0 || keysym > 0xFF || keysym == SPACE
    || 'A' as int <= keysym <= 'Z' as int || 'a' as int <= keysym <= 'z' as int
  }

  lemma SimpleIsWhole(keysym: int)
    requires Simple(keysym)
    ensures Decomposition(keysym).None?
  {
  }

  lemma PartsAreSimple(keysym: int)
    requires Decomposition(keysym).Some?
    ensures var p := Decomposition(keysym).value;
            && 0xFE50 <= p.dead <= 0xFE58
            && (p.base == SPACE || 'A' as int <= p.base <= 'Z' as int || 'a' as int <= p.base <= 'z' as int)
  {
  }

  /** Neither half of a decomposition can be decomposed itself, and neither is a modifier key. */
  lemma DecompositionIsFlat(keysym: int)
    requires Decomposition(keysym).Some?
    ensures var p := Decomposition(keysym).value;
            && Decomposition(p.dead).None? && Decomposition(p.base).None?
            && !IsModifier(p.dead) && !IsModifier(p.base) && !IsModifier(keysym)
            && Simple(p.dead) && Simple(p.base) && !Simple(keysym)
  {
    var p := Decomposition(keysym).value;
    PartsAreSimple(keysym);
    SimpleIsWhole(p.dead);
    SimpleIsWhole(p.base);
    if Simple(keysym) || IsModifier(keysym) {
      SimpleIsWhole(keysym);
    }
  }

  /** Both halves are different keys, and not the whole. */
  lemma PartsAreOrdinary(keysym: int, p: Pair)
    requires Decomposition(keysym) == Some(p)
    ensures Simple(p.dead) && Simple(p.base) && !IsModifier(p.dead) && !IsModifier(p.base) && !IsModifier(keysym)
    ensures p.dead != p.base && keysym != p.dead && keysym != p.base
  {
    DecompositionIsFlat(keysym);
    PartsAreSimple(keysym);
  }
}
