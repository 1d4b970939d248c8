module Keyboards {
  import opened Options
  import opened Keymaps
  import opened KeyEvents
  import opened KeyDefinitions
  import opened KeyChoices

  const MAX_KEYSYMS := 1024        // GUAC_RDP_KEYBOARD_MAX_KEYSYMS
  const TABLE_SIZE := 0x20000
  const UNDEFINED := -1            // a null entry of keys_by_keysym

  datatype KeySource = Client | Synthetic

  function CountTrue(s: seq<bool>): nat {
    if s == [] then 0 else CountTrue(s[..|s| - 1]) + if s[|s| - 1] then 1 else 0
  }

  lemma {:induction false} CountUpdate(s: seq<bool>, k: nat, b: bool)
    requires k < |s|
    ensures CountTrue(s[k := b]) == CountTrue(s) + (if b then 1 else 0) - (if s[k] then 1 else 0)
  {
    var n := |s| - 1;
    if k < n {
      CountUpdate(s[..n], k, b);
      assert s[k := b][..n] == s[..n][k := b];
    } else {
      assert s[k := b][..n] == s[..n];
    }
  }

  lemma {:induction false} CountNone(s: seq<bool>)
    ensures CountTrue(s) == 0 <==> forall k :: 0 <= k < |s| ==> !s[k]
  {
    if s != [] {
      CountNone(s[..|s| - 1]);
    }
  }

  /** The character that a keysym stands for: those of Latin-1 are their own keysyms, and others have keysyms from
      0x1000000 on. */
  function CodepointOf(keysym: int): Option<int> {
    if keysym <= 0xFF then Some(keysym) else if keysym >= 0x1000000 then Some(keysym % 0x1000000) else None
  }

  /** How deep pressing a key can recurse: a composite key types others, and any key but a modifier
      may press modifiers. */
  function Rank(keysym: int, down: bool): nat {
    if !down then 0 else if IsModifier(keysym) then 1 else if Simple(keysym) then 2 else 3
  }

  class Keyboard {
    // guac_rdp_keyboard, with the fields of its guac_rdp_key structures in one array each.
    const definitions: array<seq<Desc>>
    const pressed: array<Option<Desc>>
    const userPressed: array<bool>
    const table: array<int>             // keys_by_keysym
    var numKeys: nat
    var lockFlags: set<Lock>
    var synchronized: bool
    var userPressedKeys: int
    ghost var log: seq<Event>           // everything sent to the server

    /** guac_rdp_keyboard_alloc: a keyboard whose keymap presses modifier keys without the help of
        others is running, with nothing pressed and nothing sent. */
    constructor (keymap: Keymap)
      requires forall d :: d in keymap.Mappings() && IsModifier(d.keysym) ==>
                d.setModifiers == {} && d.clearModifiers == {}
      ensures Running() && log == [] && userPressedKeys == 0 && !synchronized && lockFlags == {}
      ensures fresh(definitions) && fresh(pressed) && fresh(userPressed) && fresh(table)
      ensures DefinedBy(keymap.Mappings()) && numKeys <= |keymap.Mappings()|
      ensures numKeys < MAX_KEYSYMS ==>
                forall keysym :: DefinitionsOf(keysym) == Extended([], keymap.Mappings(), keysym)
      ensures forall k :: 0 <= k < numKeys ==> pressed[k].None?
    {
      definitions := new seq<Desc>[MAX_KEYSYMS](i => []);
      pressed := new Option<Desc>[MAX_KEYSYMS](i => None);
      userPressed := new bool[MAX_KEYSYMS](i => false);
      table := new int[TABLE_SIZE](i => UNDEFINED);
      numKeys, lockFlags, synchronized, userPressedKeys := 0, {}, false, 0;
      log := [];
      new;
      Begin(keymap);
    }

    /** Loads a keymap into an empty keyboard. */
    method Begin(keymap: Keymap)
      requires Empty() && log == [] && userPressedKeys == 0
      requires forall d :: d in keymap.Mappings() && IsModifier(d.keysym) ==>
                d.setModifiers == {} && d.clearModifiers == {}
      modifies this`numKeys, table, definitions
      ensures Running() && DefinedBy(keymap.Mappings()) && numKeys <= |keymap.Mappings()|
      ensures numKeys < MAX_KEYSYMS ==>
                forall keysym :: DefinitionsOf(keysym) == Extended([], keymap.Mappings(), keysym)
      ensures forall k :: 0 <= k < numKeys ==> pressed[k].None?
    {
      NothingLoaded();
      ghost var was := AllDefinitions();
      LoadKeymap(keymap, keymap.Mappings());
      PlainIfMapped(keymap.Mappings());
      NothingPressed();
      if numKeys < MAX_KEYSYMS {
        forall keysym
          ensures DefinitionsOf(keysym) == Extended([], keymap.Mappings(), keysym)
        {
          assert Extended(was[keysym], keymap.Mappings(), keysym) == AllDefinitions()[keysym];
        }
      }
    }

    /** No key is known, and none is pressed. */
    ghost predicate Empty()
      reads this`numKeys, definitions, pressed, userPressed, table
    {
      && definitions.Length == pressed.Length == userPressed.Length == MAX_KEYSYMS && table.Length == TABLE_SIZE
      && numKeys == 0 && (forall s :: 0 <= s < TABLE_SIZE ==> table[s] == UNDEFINED)
      && forall k :: 0 <= k < MAX_KEYSYMS ==> definitions[k] == [] && pressed[k].None? && !userPressed[k]
    }

    lemma NothingPressed()
      requires Loaded() && PlainModifiers() && log == [] && userPressedKeys == 0
      requires forall k :: 0 <= k < numKeys ==> pressed[k].None? && !userPressed[k]
      ensures Running()
    {
      CountNone(userPressed[..numKeys]);
    }

    lemma NothingLoaded()
      requires Empty()
      ensures Loaded() && Vacant() && DefinedBy([]) && forall keysym :: DefinitionsOf(keysym) == []
    {
    }

    lemma PlainIfMapped(mappings: seq<Desc>)
      requires Loaded() && DefinedBy(mappings)
      requires forall d :: d in mappings && IsModifier(d.keysym) ==> d.setModifiers == {} && d.clearModifiers == {}
      ensures PlainModifiers()
    {
      forall m, i | IsModifier(m) && KeyOf(m) != UNDEFINED && 0 <= i < |definitions[KeyOf(m)]|
        ensures definitions[KeyOf(m)][i].setModifiers == {} && definitions[KeyOf(m)][i].clearModifiers == {}
      {
        KeyInjective(m, definitions[KeyOf(m)][i].keysym);
      }
    }

    /** Every definition is one of these mappings. */
    ghost predicate DefinedBy(mappings: seq<Desc>)
      requires Loaded()
      reads this`numKeys, table, definitions
    {
      forall k, i :: 0 <= k < numKeys && 0 <= i < |definitions[k]| ==> definitions[k][i] in mappings
    }

    /** guac_rdp_keyboard_load_keymap: the parent's mappings first. Unless the storage for keys is used up,
        every keysym gets all of its mappings, as far as it has room. */
    method LoadKeymap(keymap: Keymap, ghost all: seq<Desc>)
      requires Loaded() && Vacant() && DefinedBy(all)
      requires forall d :: d in keymap.Mappings() ==> d in all
      modifies this`numKeys, table, definitions
      ensures Loaded() && Vacant() && DefinedBy(all)
      ensures old(numKeys) <= numKeys <= old(numKeys) + |keymap.Mappings()|
      ensures numKeys < MAX_KEYSYMS ==> AreExtended(old(AllDefinitions()), keymap.Mappings(), AllDefinitions())
      decreases keymap
    {
      ghost var was := AllDefinitions();
      ghost var parents := if keymap.parent.Some? then keymap.parent.value.Mappings() else [];
      NothingGained(was);
      if keymap.parent.Some? {
        LoadKeymap(keymap.parent.value, all);
      }
      LoadMappings(keymap.mapping, all, was, |parents|, keymap.Mappings());
    }

    /** Adds the mappings of one keymap, which come after the first n of all that are loaded. */
    method LoadMappings(mapping: seq<Desc>, ghost all: seq<Desc>, ghost was: imap<int, seq<Desc>>, ghost n: nat,
                        ghost both: seq<Desc>)
      requires Loaded() && Vacant() && DefinedBy(all)
      requires (forall d :: d in mapping ==> d in all) && n <= |both| && mapping == both[n..]
      requires numKeys < MAX_KEYSYMS ==> AreExtended(was, both[..n], AllDefinitions())
      modifies this`numKeys, table, definitions
      ensures Loaded() && Vacant() && DefinedBy(all) && old(numKeys) <= numKeys <= old(numKeys) + |mapping|
      ensures numKeys < MAX_KEYSYMS ==> AreExtended(was, both, AllDefinitions())
    {
      ghost var done := n;
      var i := 0;
      while i < |mapping|
        invariant 0 <= i <= |mapping| && done == n + i && Loaded() && Vacant() && DefinedBy(all)
        invariant old(numKeys) <= numKeys <= old(numKeys) + i
        invariant numKeys < MAX_KEYSYMS ==> AreExtended(was, both[..done], AllDefinitions())
      {
        ghost var next := done + 1;
        LoadMapping(mapping[i], all, was, both, done, next);
        done := next;
        i := i + 1;
      }
      assert both[..done] == both;
    }

    /** Adds one more mapping to those loaded before. */
    method LoadMapping(mapping: Desc, ghost all: seq<Desc>, ghost was: imap<int, seq<Desc>>, ghost both: seq<Desc>,
                       ghost n: nat, ghost next: nat)
      requires Loaded() && Vacant() && DefinedBy(all) && mapping in all
      requires n < |both| && both[n] == mapping && next == n + 1
      requires numKeys < MAX_KEYSYMS ==> AreExtended(was, both[..n], AllDefinitions())
      modifies this`numKeys, table, definitions
      ensures Loaded() && Vacant() && DefinedBy(all) && old(numKeys) <= numKeys <= old(numKeys) + 1
      ensures numKeys < MAX_KEYSYMS ==> AreExtended(was, both[..next], AllDefinitions())
    {
      ghost var between := AllDefinitions();
      AddMapping(mapping, all);
      if numKeys < MAX_KEYSYMS {
        ExtendedByNext(was, between, AllDefinitions(), both, n, next);
      }
    }

    ghost function AllDefinitions(): (r: imap<int, seq<Desc>>)
      requires Loaded()
      reads this`numKeys, table, definitions
      ensures forall keysym {:trigger DefinitionsOf(keysym)} :: keysym in r && r[keysym] == DefinitionsOf(keysym)
      ensures forall keysym {:trigger r[keysym]} :: keysym in r && r[keysym] == DefinitionsOf(keysym)
    {
      imap keysym: int | true :: DefinitionsOf(keysym)
    }

    lemma NothingGained(was: imap<int, seq<Desc>>)
      requires Loaded() && was == AllDefinitions()
      ensures AreExtended(was, [], was)
    {
      ExtendedByNone(was);
    }

    /** The definitions that a keysym has. */
    function DefinitionsOf(keysym: int): seq<Desc>
      requires Loaded()
      reads this`numKeys, table, definitions
    {
      if KeyOf(keysym) == UNDEFINED then [] else definitions[KeyOf(keysym)]
    }

    /** guac_rdp_keyboard_add_mapping: adds a definition to its keysym and to no other, unless the
        keysym cannot be mapped, there is no room for another key, or none for the definition. */
    method AddMapping(mapping: Desc, ghost all: seq<Desc>)
      requires Loaded() && Vacant() && DefinedBy(all) && mapping in all
      modifies this`numKeys, table, definitions
      ensures Loaded() && Vacant() && DefinedBy(all) && old(numKeys) <= numKeys <= old(numKeys) + 1
      ensures DefinitionsOf(mapping.keysym) ==
              if PlaceOf(mapping.keysym).None?
                 || (old(KeyOf(mapping.keysym)) == UNDEFINED && old(numKeys) == MAX_KEYSYMS)
                 || |old(DefinitionsOf(mapping.keysym))| == MAX_DEFINITIONS
              then old(DefinitionsOf(mapping.keysym)) else old(DefinitionsOf(mapping.keysym)) + [mapping]
      ensures forall keysym :: keysym != mapping.keysym ==> DefinitionsOf(keysym) == old(DefinitionsOf(keysym))
    {
      var slot := PlaceOf(mapping.keysym);
      if slot.None? {
        return;
      }
      if table[slot.value] == UNDEFINED {
        if numKeys == MAX_KEYSYMS {
          return;
        }
        AddKey(mapping, all);
        return;
      }
      var key := table[slot.value];
      if |definitions[key]| == MAX_DEFINITIONS {
        return;
      }
      definitions[key] := definitions[key] + [mapping];
    }

    /** Points the lookup table at the next available storage, which gets its first definition. */
    method AddKey(mapping: Desc, ghost all: seq<Desc>)
      requires Loaded() && Vacant() && DefinedBy(all) && mapping in all
      requires PlaceOf(mapping.keysym).Some? && KeyOf(mapping.keysym) == UNDEFINED && numKeys < MAX_KEYSYMS
      modifies this`numKeys, table, definitions
      ensures Loaded() && Vacant() && DefinedBy(all) && numKeys == old(numKeys) + 1
      ensures DefinitionsOf(mapping.keysym) == [mapping]
      ensures forall keysym :: keysym != mapping.keysym ==> DefinitionsOf(keysym) == old(DefinitionsOf(keysym))
    {
      table[PlaceOf(mapping.keysym).value] := numKeys;
      definitions[numKeys] := definitions[numKeys] + [mapping];
      numKeys := numKeys + 1;
    }

    /** guac_rdp_keyboard_set_indicators: the server reports the state of its locks. */
    method SetIndicators(flags: set<Lock>)
      requires Running()
      modifies this`lockFlags
      ensures Running() && lockFlags == flags
    {
      lockFlags := flags;
    }

    /** guac_rdp_keyboard_get_key */
    function KeyOf(keysym: int): int
      requires table.Length == TABLE_SIZE
      reads table
    {
      match PlaceOf(keysym)
      case Some(slot) => table[slot]
      case None => UNDEFINED
    }

    /** The lookup table and the definitions fit together: every entry is a key, no key has two
        entries, and the definitions of a key are for its own keysym. */
    ghost predicate Loaded()
      reads this`numKeys, table, definitions
    {
      && definitions.Length == pressed.Length == userPressed.Length == MAX_KEYSYMS && table.Length == TABLE_SIZE
      && numKeys <= MAX_KEYSYMS
      && (forall s :: 0 <= s < TABLE_SIZE ==> table[s] == UNDEFINED || 0 <= table[s] < numKeys)
      && (forall s, t :: 0 <= s < t < TABLE_SIZE && table[s] != UNDEFINED ==> table[s] != table[t])
      && (forall k :: 0 <= k < numKeys ==> 1 <= |definitions[k]| <= MAX_DEFINITIONS)
      && (forall k, i :: 0 <= k < numKeys && 0 <= i < |definitions[k]| ==> KeyOf(definitions[k][i].keysym) == k)
    }

    /** The storage for further keys is unused. */
    ghost predicate Vacant()
      requires definitions.Length == MAX_KEYSYMS
      reads this`numKeys, definitions
    {
      forall k :: numKeys <= k < MAX_KEYSYMS ==> definitions[k] == []
    }

    /** Modifier keys can be pressed without pressing or releasing modifiers. */
    ghost predicate PlainModifiers()
      requires Loaded()
      reads this`numKeys, table, definitions
    {
      forall m :: IsModifier(m) ==> PlainDefinitions(DefinitionsOf(m))
    }

    static function HeldBy(d: Option<Desc>): Held {
      match d case Some(desc) => Down(ScanOf(desc)) case None => Up
    }

    /** The invariant of a running keyboard: the server has been told of exactly the keys that are
        recorded as pressed, and the number of keys pressed by the user is right. */
    ghost predicate Running()
      reads this`numKeys, this`log, this`userPressedKeys, table, definitions, pressed, userPressed
    {
      RunningBut(UNDEFINED, Up)
    }

    /** The same, except that the server has already been told that one key is in another state. */
    ghost predicate RunningBut(key: int, held: Held)
      reads this`numKeys, this`log, this`userPressedKeys, table, definitions, pressed, userPressed
    {
      && Loaded() && PlainModifiers()
      && (forall k :: 0 <= k < numKeys && pressed[k].Some? ==>
            pressed[k].value in definitions[k] && pressed[k].value.scancode != 0)
      && (forall k: nat :: HeldAfter(log, k)
                          == if k == key then held else if k < numKeys then HeldBy(pressed[k]) else Up)
      && userPressedKeys == CountTrue(userPressed[..numKeys])
      && LogSatisfied()
    }

    /** No key whose requirements can always be met on this keyboard has ever been sent without meeting them. */
    ghost predicate LogSatisfied()
      requires Loaded()
      reads this`numKeys, this`log, table, definitions
    {
      forall i :: 0 <= i < |log| && log[i].KeyEvent? && CanAlwaysMeet(log[i].desc) ==> Satisfied(log[i])
    }

    predicate CanAlwaysMeet(d: Desc)
      requires Loaded()
      reads this`numKeys, table, definitions
    {
      Meetable(d, DefinitionsOf(LSHIFT), DefinitionsOf(ALTGR))
    }

    /** The requirements of a definition can be met as things are, with these locks. */
    ghost predicate CanMeet(d: Desc, locks: set<Lock>)
      requires Loaded()
      reads this`numKeys, table, definitions, pressed
    {
      Meets(d, Shift(), AltGr(), DefinitionsOf(LSHIFT), DefinitionsOf(ALTGR), locks)
    }

    /** The definition that a key is sent by if it is pressed with these locks, unless it is not known or cannot be
        sent. */
    ghost function Choice(keysym: int, locks: set<Lock>): (d: Option<Desc>)
      requires Loaded()
      reads this`numKeys, table, definitions, pressed
    {
      Sendable(DefinitionsOf(keysym), ModifierFlags(Shift(), AltGr()), locks)
    }

    /** The definition that pressing a key sends, if the key is up: that toggles its lock first. */
    ghost function ToPress(keysym: int): (d: Option<Desc>)
      requires Loaded()
      reads this`numKeys, this`lockFlags, table, definitions, pressed
    {
      Choice(keysym, Toggle(lockFlags, LockFlag(keysym)))
    }

    /** ... with its requirements met. */
    ghost predicate WillMeet(keysym: int)
      requires Loaded()
      reads this`numKeys, this`lockFlags, table, definitions, pressed
    {
      ToPress(keysym).Some? && CanMeet(ToPress(keysym).value, Toggle(lockFlags, LockFlag(keysym)))
    }

    /** The last event is that a key is pressed by this definition, with or without its requirements met. */
    ghost predicate PressedLast(key: int, desc: Desc, met: bool)
      reads this`log
    {
      && log != [] && log[|log| - 1].KeyEvent? && log[|log| - 1].key == key && log[|log| - 1].desc == desc
      && log[|log| - 1].pressed && (Satisfied(log[|log| - 1]) <==> met)
    }

    /** guac_rdp_keyboard_is_pressed */
    predicate IsPressed(keysym: int)
      requires Loaded()
      reads this`numKeys, table, definitions, pressed
    {
      KeyOf(keysym) != UNDEFINED && pressed[KeyOf(keysym)].Some?
    }

    predicate Shift()
      requires Loaded()
      reads this`numKeys, table, definitions, pressed
    {
      IsPressed(LSHIFT) || IsPressed(RSHIFT)
    }

    /** AltGr by its own key, or by Ctrl+Alt. */
    predicate AltGr()
      requires Loaded()
      reads this`numKeys, table, definitions, pressed
    {
      || IsPressed(RALT) || IsPressed(ALTGR)
      || (IsPressed(LALT) && (IsPressed(RCTRL) || IsPressed(LCTRL)))
    }

    /** guac_rdp_keyboard_get_definition: the definition that is being held down, or else the first
        one of the least cost. */
    method GetDefinition(key: int) returns (best: Desc)
      requires Loaded() && 0 <= key < numKeys
      ensures pressed[key].Some? ==> best == pressed[key].value
      ensures pressed[key].None? ==>
                best == definitions[key][CheapestAt(definitions[key], ModifierFlags(Shift(), AltGr()), lockFlags)]
      ensures pressed[key].None? ==>
                exists i :: 0 <= i < |definitions[key]| && best == definitions[key][i]
                  && (forall j :: 0 <= j < i ==> CostNow(best) < CostNow(definitions[key][j]))
                  && (forall j :: i <= j < |definitions[key]| ==> CostNow(best) <= CostNow(definitions[key][j]))
    {
      if pressed[key].Some? {
        return pressed[key].value;
      }
      var at := FirstCheapest(definitions[key], ModifierFlags(Shift(), AltGr()), lockFlags);
      best := definitions[key][at];
    }

    function CostNow(d: Desc): nat
      requires Loaded()
      reads this`numKeys, this`lockFlags, table, definitions, pressed
    {
      Cost(d, ModifierFlags(Shift(), AltGr()), lockFlags)
    }

    /** Key k is one of those that UpdateModifiers may press or release. */
    predicate ModifierKey(k: int)
      requires Loaded()
      reads this`numKeys, table, definitions
    {
      || k == KeyOf(LSHIFT) || k == KeyOf(RSHIFT) || k == KeyOf(ALTGR) || k == KeyOf(LALT) || k == KeyOf(RALT)
      || k == KeyOf(LCTRL) || k == KeyOf(RCTRL)
    }

    /** The keys that a key changes if it is pressed or released on behalf of others: itself, and if it is pressed,
        those that it may take to press it. */
    predicate MayChange(keysym: int, down: bool, k: int)
      requires Loaded()
      reads this`numKeys, table, definitions
    {
      || k == KeyOf(keysym)
      || (down && !IsModifier(keysym)
          && (ModifierKey(k)
              || match Decomposition(keysym)
                 case Some(p) => k == KeyOf(p.dead) || k == KeyOf(p.base)
                 case None => false))
    }

    /** Logging an event that is not a key event. */
    lemma OtherEvent(before: seq<Event>, e: Event)
      requires Loaded() && !e.KeyEvent? && log == before + [e]
      ensures forall k: nat :: HeldAfter(log, k) == HeldAfter(before, k)
      ensures (forall i :: 0 <= i < |before| && before[i].KeyEvent? && CanAlwaysMeet(before[i].desc) ==>
                 Satisfied(before[i])) ==>
                LogSatisfied()
    {
      forall k: nat ensures HeldAfter(log, k) == HeldAfter(before, k) { HeldAppend(before, e, k); }
    }

    /** guac_rdp_keyboard_update_locks */
    method UpdateLocks(setFlags: set<Lock>, clearFlags: set<Lock>)
      requires Running()
      modifies this`lockFlags, this`log
      ensures Running()
      ensures lockFlags == (old(lockFlags) + setFlags) - clearFlags
      ensures log == if lockFlags != old(lockFlags) then old(log) + [SynchronizeEvent(lockFlags)] else old(log)
    {
      var newFlags := (lockFlags + setFlags) - clearFlags;
      if newFlags != lockFlags {
        ghost var before := log;
        log := log + [SynchronizeEvent(newFlags)];
        OtherEvent(before, SynchronizeEvent(newFlags));
        lockFlags := newFlags;
      }
    }

    /** guac_rdp_keyboard_update_modifiers: only modifiers that are set are cleared, and only those
        that are cleared are set, which each are if the key for it can be sent. */
    method UpdateModifiers(setFlags: set<Modifier>, clearFlags: set<Modifier>)
      requires Running()
      modifies this`lockFlags, this`synchronized, this`log, this`userPressedKeys, pressed, userPressed
      ensures Running() && old(log) <= log
      ensures userPressedKeys == old(userPressedKeys) && userPressed[..] == old(userPressed[..])
      ensures forall k :: 0 <= k < numKeys && !ModifierKey(k) ==> pressed[k] == old(pressed[k])
      ensures setFlags == {} && clearFlags == {} ==> pressed[..] == old(pressed[..]) && lockFlags == old(lockFlags)
      ensures var first := Pressing(ModifierShift in setFlags, old(Shift()), DefinitionsOf(LSHIFT), old(lockFlags));
        var locked := Locked(old(lockFlags), first);
        var second := Pressing(ModifierAltGr in setFlags, old(AltGr()), DefinitionsOf(ALTGR), locked);
        && Shift() == Switched(ModifierShift in setFlags, ModifierShift in clearFlags, old(Shift()), first)
        && AltGr() == Switched(ModifierAltGr in setFlags, ModifierAltGr in clearFlags, old(AltGr()), second)
        && lockFlags == Locked(locked, second)
      decreases 0, if setFlags == {} && clearFlags == {} then 0 else 2, 0, 2
    {
      var flags := ModifierFlags(Shift(), AltGr());
      var clearing := clearFlags * flags;
      var setting := setFlags - flags;
      SwitchModifiers(ModifierShift in setting, ModifierShift in clearing, ModifierAltGr in setting,
                      ModifierAltGr in clearing);
    }

    method SwitchModifiers(pressShift: bool, releaseShift: bool, pressAltGr: bool, releaseAltGr: bool)
      requires Running() && (pressShift ==> !Shift()) && (pressAltGr ==> !AltGr())
      modifies this`lockFlags, this`synchronized, this`log, this`userPressedKeys, pressed, userPressed
      ensures Running() && old(log) <= log
      ensures userPressedKeys == old(userPressedKeys) && userPressed[..] == old(userPressed[..])
      ensures forall k :: 0 <= k < numKeys && !ModifierKey(k) ==> pressed[k] == old(pressed[k])
      ensures !pressShift && !releaseShift && !pressAltGr && !releaseAltGr ==>
                pressed[..] == old(pressed[..]) && lockFlags == old(lockFlags)
      ensures var first := Pressing(pressShift, false, DefinitionsOf(LSHIFT), old(lockFlags));
        var locked := Locked(old(lockFlags), first);
        var second := Pressing(pressAltGr, false, DefinitionsOf(ALTGR), locked);
        && Shift() == (if pressShift then first.Some? else if releaseShift then false else old(Shift()))
        && AltGr() == (if pressAltGr then second.Some? else if releaseAltGr then false else old(AltGr()))
        && lockFlags == Locked(locked, second)
      decreases 0, if pressShift || releaseShift || pressAltGr || releaseAltGr then 2 else 0, 0, 1
    {
      SwitchShift(pressShift, releaseShift);
      SwitchAltGr(pressAltGr, releaseAltGr);
    }

    /** Presses/releases Shift as needed. */
    method SwitchShift(press: bool, release: bool)
      requires Running() && (press ==> !Shift())
      modifies this`lockFlags, this`synchronized, this`log, this`userPressedKeys, pressed, userPressed
      ensures Running() && old(log) <= log
      ensures userPressedKeys == old(userPressedKeys) && userPressed[..] == old(userPressed[..])
      ensures forall k :: 0 <= k < numKeys && k != KeyOf(LSHIFT) && k != KeyOf(RSHIFT) ==> pressed[k] == old(pressed[k])
      ensures !press && !release ==> pressed[..] == old(pressed[..])
      ensures var sent := Pressing(press, false, DefinitionsOf(LSHIFT), old(lockFlags));
        && lockFlags == Locked(old(lockFlags), sent)
        && Shift() == (if press then sent.Some? else if release then false else old(Shift()))
      ensures AltGr() == old(AltGr())
      decreases 0, if press || release then 2 else 0, 0, 0
    {
      if press {
        Press(LSHIFT);
      } else if release {
        ReleaseShift();
      }
    }

    /** Releases Shift on both sides. */
    method ReleaseShift()
      requires Running()
      modifies this`lockFlags, this`synchronized, this`log, this`userPressedKeys, pressed, userPressed
      ensures Running() && old(log) <= log && lockFlags == old(lockFlags)
      ensures userPressedKeys == old(userPressedKeys) && userPressed[..] == old(userPressed[..])
      ensures forall k :: 0 <= k < numKeys && k != KeyOf(LSHIFT) && k != KeyOf(RSHIFT) ==> pressed[k] == old(pressed[k])
      ensures !Shift() && AltGr() == old(AltGr())
      decreases 0, 1, 3, 0
    {
      Release(LSHIFT);
      Release(RSHIFT);
    }

    /** Presses/releases AltGr as needed. */
    method SwitchAltGr(press: bool, release: bool)
      requires Running() && (press ==> !AltGr())
      modifies this`lockFlags, this`synchronized, this`log, this`userPressedKeys, pressed, userPressed
      ensures Running() && old(log) <= log
      ensures userPressedKeys == old(userPressedKeys) && userPressed[..] == old(userPressed[..])
      ensures forall k :: 0 <= k < numKeys && !ModifierKey(k) ==> pressed[k] == old(pressed[k])
      ensures !press && !release ==> pressed[..] == old(pressed[..])
      ensures var sent := Pressing(press, false, DefinitionsOf(ALTGR), old(lockFlags));
        && lockFlags == Locked(old(lockFlags), sent)
        && AltGr() == (if press then sent.Some? else if release then false else old(AltGr()))
      ensures Shift() == old(Shift())
      decreases 0, if press || release then 2 else 0, 0, 0
    {
      if press {
        Press(ALTGR);
      } else if release {
        ReleaseAlt();
        Release(LCTRL);
        Release(RCTRL);
      }
    }

    method ReleaseAlt()
      requires Running()
      modifies this`lockFlags, this`synchronized, this`log, this`userPressedKeys, pressed, userPressed
      ensures Running() && lockFlags == old(lockFlags) && old(log) <= log
      ensures userPressedKeys == old(userPressedKeys) && userPressed[..] == old(userPressed[..])
      ensures forall k :: 0 <= k < numKeys && k != KeyOf(ALTGR) && k != KeyOf(LALT) && k != KeyOf(RALT) ==>
                pressed[k] == old(pressed[k])
      ensures !IsPressed(ALTGR) && !IsPressed(LALT) && !IsPressed(RALT) && Shift() == old(Shift())
      decreases 0, 0, 5, 0
    {
      Release(ALTGR);
      Release(LALT);
      Release(RALT);
    }

    /** Releases a modifier key on behalf of another key. */
    method Release(keysym: int)
      requires Running()
      modifies this`lockFlags, this`synchronized, this`log, this`userPressedKeys, pressed, userPressed
      ensures Running() && lockFlags == old(lockFlags) && old(log) <= log
      ensures userPressedKeys == old(userPressedKeys) && userPressed[..] == old(userPressed[..])
      ensures forall k :: 0 <= k < numKeys && k != KeyOf(keysym) ==> pressed[k] == old(pressed[k])
      ensures !IsPressed(keysym) && forall m :: m != keysym ==> IsPressed(m) == old(IsPressed(m))
      decreases 0, 0, 4, 0
    {
      UpdateKeysym(keysym, false, Synthetic);
      forall m | m != keysym ensures IsPressed(m) == old(IsPressed(m)) {
        if KeyOf(m) == KeyOf(keysym) != UNDEFINED { KeyInjective(m, keysym); }
      }
    }

    /** Presses a modifier key on behalf of another key: whether it can, does not depend on other modifiers. */
    method Press(keysym: int)
      requires Running() && IsModifier(keysym) && !IsPressed(keysym)
      modifies this`lockFlags, this`synchronized, this`log, this`userPressedKeys, pressed, userPressed
      ensures Running() && old(log) <= log
      ensures userPressedKeys == old(userPressedKeys) && userPressed[..] == old(userPressed[..])
      ensures forall k :: 0 <= k < numKeys && k != KeyOf(keysym) ==> pressed[k] == old(pressed[k])
      ensures var sent := Sendable(DefinitionsOf(keysym), {}, old(lockFlags));
        IsPressed(keysym) == sent.Some? && lockFlags == Locked(old(lockFlags), sent)
      ensures forall m :: m != keysym ==> IsPressed(m) == old(IsPressed(m))
      decreases 0, 1, 4, 0
    {
      PlainChoice(keysym);
      UpdateKeysym(keysym, true, Synthetic);
      forall m | m != keysym ensures IsPressed(m) == old(IsPressed(m)) {
        if KeyOf(m) == KeyOf(keysym) != UNDEFINED { KeyInjective(m, keysym); }
      }
    }

    lemma PlainChoice(keysym: int)
      requires Loaded() && PlainModifiers() && IsModifier(keysym)
      ensures ToPress(keysym) == Sendable(DefinitionsOf(keysym), {}, lockFlags)
    {
      assert Toggle(lockFlags, LockFlag(keysym)) == lockFlags;
      PlainSendable(DefinitionsOf(keysym), ModifierFlags(Shift(), AltGr()), {}, lockFlags);
    }

    lemma KeyInjective(a: int, b: int)
      requires Loaded() && KeyOf(a) == KeyOf(b) != UNDEFINED
      ensures a == b
    {
    }

    /** A key either asks for no modifiers, or is none itself. */
    lemma OwnModifiers(key: int, keysym: int, desc: Desc)
      requires Loaded() && PlainModifiers() && KeyOf(keysym) == key != UNDEFINED && desc in definitions[key]
      ensures if IsModifier(keysym) then desc.setModifiers == {} && desc.clearModifiers == {} else !ModifierKey(key)
    {
      if IsModifier(keysym) {
        var i :| 0 <= i < |definitions[key]| && definitions[key][i] == desc;
        assert definitions[KeyOf(keysym)][i] == desc;
      } else {
        NotModifierKey(keysym);
      }
    }

    lemma NotModifierKey(keysym: int)
      requires Loaded() && KeyOf(keysym) != UNDEFINED && !IsModifier(keysym)
      ensures !ModifierKey(KeyOf(keysym))
    {
      forall m | IsModifier(m) ensures KeyOf(m) != KeyOf(keysym) {
        if KeyOf(m) == KeyOf(keysym) { KeyInjective(m, keysym); }
      }
    }

    /** guac_rdp_send_key_event for a key that is in the other state so far. */
    ghost method SendKeyEvent(key: nat, desc: Desc, down: bool, met: bool)
      requires Running() && key < numKeys && pressed[key] == if down then None else Some(desc)
      requires down ==> (Requirements(desc) <==> met) && (CanAlwaysMeet(desc) ==> met)
      modifies this`log
      ensures RunningBut(key, if down then Down(ScanOf(desc)) else Up) && old(log) <= log
      ensures down ==> PressedLast(key, desc, met)
    {
      var before := log;
      var e := KeyEvent(key, desc, down, ModifierFlags(Shift(), AltGr()), lockFlags);
      log := log + [e];
      forall k: nat
        ensures HeldAfter(log, k)
             == if k != key then HeldAfter(before, k) else if down then Down(ScanOf(desc)) else Up
      {
        HeldAppend(before, e, k);
      }
    }

    /** Updates the locks and modifiers that a key is about to be pressed with: afterwards they are as its definition
        requires exactly if that can be met. */
    method MeetRequirements(desc: Desc, ghost met: bool)
      requires Running() && met == CanMeet(desc, lockFlags)
      modifies this`lockFlags, this`synchronized, this`log, this`userPressedKeys, pressed, userPressed
      ensures Running() && old(log) <= log
      ensures userPressedKeys == old(userPressedKeys) && userPressed[..] == old(userPressed[..])
      ensures forall k :: 0 <= k < numKeys && !ModifierKey(k) ==> pressed[k] == old(pressed[k])
      ensures desc.setModifiers == {} && desc.clearModifiers == {} ==>
                pressed[..] == old(pressed[..]) && lockFlags == Locked(old(lockFlags), Some(desc))
      ensures Requirements(desc) <==> met
      decreases 0, if desc.setModifiers == {} && desc.clearModifiers == {} then 0 else 2, 0, 3
    {
      ghost var shift, altGr, locks := Shift(), AltGr(), lockFlags;
      UpdateLocks(desc.setLocks, desc.clearLocks);
      UpdateModifiers(desc.setModifiers, desc.clearModifiers);
      MetIff(desc, shift, altGr, DefinitionsOf(LSHIFT), DefinitionsOf(ALTGR), locks, Shift(), AltGr(), lockFlags);
    }

    /** The tracked flags are as the definition requires. */
    ghost predicate Requirements(desc: Desc)
      requires Loaded()
      reads this`numKeys, this`lockFlags, table, definitions, pressed
    {
      Satisfied(KeyEvent(0, desc, true, ModifierFlags(Shift(), AltGr()), lockFlags))
    }

    /** guac_rdp_keyboard_send_defined_key: tells the server that a key has been pressed or released,
        unless the key cannot be sent. */
    method SendDefinedKey(key: int, ghost keysym: int, down: bool, ghost choice: Option<Desc>, ghost met: bool)
      returns (sent: Option<Desc>)
      requires Running() && KeyOf(keysym) == key != UNDEFINED && (down <==> pressed[key].None?)
      requires down ==> choice == Choice(keysym, lockFlags) && met == ChoiceMeets(choice)
      modifies this`lockFlags, this`synchronized, this`log, this`userPressedKeys, pressed, userPressed
      ensures sent == if down then choice else old(pressed[key])
      ensures sent.None? ==> Running() && pressed[..] == old(pressed[..]) && lockFlags == old(lockFlags)
      ensures sent.None? ==> log == old(log)
      ensures sent.Some? ==> RunningBut(key, if down then Down(ScanOf(sent.value)) else Up) && old(log) <= log
      ensures sent.Some? ==> sent.value in definitions[key] && sent.value.scancode != 0
      ensures sent.Some? && down ==> PressedLast(key, sent.value, met)
      ensures userPressedKeys == old(userPressedKeys) && userPressed[..] == old(userPressed[..])
      ensures forall k :: 0 <= k < numKeys && (k == key || !down || IsModifier(keysym) || !ModifierKey(k)) ==>
                pressed[k] == old(pressed[k])
      ensures !down ==> lockFlags == old(lockFlags)
      ensures down && IsModifier(keysym) ==> lockFlags == Locked(old(lockFlags), sent)
      decreases 0, Rank(keysym, down), 1, 0
    {
      var desc := ChooseDefinition(key, keysym, down, choice, met);
      if desc.scancode == 0 {
        return None;
      }
      SendDefinition(key, keysym, desc, down, met);
      return Some(desc);
    }

    /** The definition to send a key by. */
    method ChooseDefinition(key: int, ghost keysym: int, down: bool, ghost choice: Option<Desc>, ghost met: bool)
      returns (desc: Desc)
      requires Running() && KeyOf(keysym) == key != UNDEFINED && (down <==> pressed[key].None?)
      requires down ==> choice == Choice(keysym, lockFlags) && met == ChoiceMeets(choice)
      ensures down ==> choice == if desc.scancode == 0 then None else Some(desc)
      ensures down && choice.Some? ==> met == CanMeet(desc, lockFlags)
      ensures !down ==> pressed[key] == Some(desc) && desc.scancode != 0
      ensures desc in definitions[key]
    {
      desc := GetDefinition(key);
    }

    ghost predicate ChoiceMeets(choice: Option<Desc>)
      requires Loaded()
      reads this`numKeys, this`lockFlags, table, definitions, pressed
    {
      choice.Some? && CanMeet(choice.value, lockFlags)
    }

    /** Tells the server that a key has been pressed or released by the given definition. */
    method SendDefinition(key: int, ghost keysym: int, desc: Desc, down: bool, ghost met: bool)
      requires Running() && KeyOf(keysym) == key != UNDEFINED && desc in definitions[key]
      requires pressed[key] == (if down then None else Some(desc)) && (down ==> met == CanMeet(desc, lockFlags))
      modifies this`lockFlags, this`synchronized, this`log, this`userPressedKeys, pressed, userPressed
      ensures RunningBut(key, if down then Down(ScanOf(desc)) else Up) && old(log) <= log
      ensures down ==> PressedLast(key, desc, met)
      ensures userPressedKeys == old(userPressedKeys) && userPressed[..] == old(userPressed[..])
      ensures forall k :: 0 <= k < numKeys && (k == key || !down || IsModifier(keysym) || !ModifierKey(k)) ==>
                pressed[k] == old(pressed[k])
      ensures !down ==> lockFlags == old(lockFlags)
      ensures down && IsModifier(keysym) ==> lockFlags == Locked(old(lockFlags), Some(desc))
      decreases 0, Rank(keysym, down), 0, 5
    {
      if down {
        PrepareKey(key, keysym, desc, met);
      }
      SendKeyEvent(key, desc, down, met);
    }

    /** Updates locks and modifiers for a key that is just now being pressed. */
    method PrepareKey(key: int, ghost keysym: int, desc: Desc, ghost met: bool)
      requires Running() && KeyOf(keysym) == key != UNDEFINED && desc in definitions[key]
      requires pressed[key] == None && met == CanMeet(desc, lockFlags)
      modifies this`lockFlags, this`synchronized, this`log, this`userPressedKeys, pressed, userPressed
      ensures Running() && old(log) <= log
      ensures userPressedKeys == old(userPressedKeys) && userPressed[..] == old(userPressed[..])
      ensures forall k :: 0 <= k < numKeys && (k == key || IsModifier(keysym) || !ModifierKey(k)) ==>
                pressed[k] == old(pressed[k])
      ensures (Requirements(desc) <==> met) && (CanAlwaysMeet(desc) ==> met)
      ensures IsModifier(keysym) ==> lockFlags == Locked(old(lockFlags), Some(desc))
      decreases 0, Rank(keysym, true), 0, 4
    {
      OwnModifiers(key, keysym, desc);
      AlwaysMeets(desc, met);
      MeetRequirements(desc, met);
    }

    lemma AlwaysMeets(desc: Desc, met: bool)
      requires Loaded() && met == CanMeet(desc, lockFlags)
      ensures CanAlwaysMeet(desc) ==> met
    {
      if CanAlwaysMeet(desc) {
        MeetableMeets(desc, Shift(), AltGr(), DefinitionsOf(LSHIFT), DefinitionsOf(ALTGR), lockFlags);
      }
    }

    /** The part of guac_rdp_keyboard_update_keysym that makes the server's state of a key follow. */
    method ChangeKey(keysym: int, down: bool, ghost choice: Option<Desc>, ghost met: bool)
      requires Running() && choice == ToPress(keysym) && met == WillMeet(keysym)
      modifies this`lockFlags, this`synchronized, this`log, this`userPressedKeys, pressed, userPressed
      ensures Running() && old(log) <= log
      ensures userPressedKeys == old(userPressedKeys) && userPressed[..] == old(userPressed[..])
      ensures forall k :: 0 <= k < numKeys && !MayChange(keysym, down, k) ==> pressed[k] == old(pressed[k])
      ensures KeyOf(keysym) != UNDEFINED ==>
                pressed[KeyOf(keysym)] == if !down then None
                                          else if old(IsPressed(keysym)) then old(pressed[KeyOf(keysym)])
                                          else choice
      ensures down && !old(IsPressed(keysym)) && choice.Some? ==>
                PressedLast(KeyOf(keysym), choice.value, met)
      ensures !down ==> lockFlags == old(lockFlags)
      ensures down && IsModifier(keysym) && !old(IsPressed(keysym)) ==>
                lockFlags == Locked(old(lockFlags), choice)
      decreases 0, Rank(keysym, down), 2, 0
    {
      var key := KeyOf(keysym);
      if key == UNDEFINED || (down && pressed[key].None?) || (!down && pressed[key].Some?) {
        DeliverKey(key, keysym, down, choice, met);
      }
    }

    /** The part of ChangeKey for a key whose state does change, or is not tracked at all. */
    method DeliverKey(key: int, keysym: int, down: bool, ghost choice: Option<Desc>, ghost met: bool)
      requires Running() && choice == ToPress(keysym) && met == WillMeet(keysym)
      requires KeyOf(keysym) == key && (key != UNDEFINED ==> (down <==> pressed[key].None?))
      modifies this`lockFlags, this`synchronized, this`log, this`userPressedKeys, pressed, userPressed
      ensures Running() && old(log) <= log
      ensures userPressedKeys == old(userPressedKeys) && userPressed[..] == old(userPressed[..])
      ensures forall k :: 0 <= k < numKeys && !MayChange(keysym, down, k) ==> pressed[k] == old(pressed[k])
      ensures key != UNDEFINED ==> pressed[key] == if down then choice else None
      ensures down && choice.Some? ==>
                PressedLast(key, choice.value, met)
      ensures !down ==> lockFlags == old(lockFlags)
      ensures down && IsModifier(keysym) ==> lockFlags == Locked(old(lockFlags), choice)
      decreases 0, Rank(keysym, down), 1, 3
    {
      if down {
        ToggleLock(keysym);
      }
      SendDefinedOrMissing(key, keysym, down, choice, met);
    }

    /** Sends a key by its definition, or else as a missing one. */
    method SendDefinedOrMissing(key: int, keysym: int, down: bool, ghost choice: Option<Desc>, ghost met: bool)
      requires Running() && KeyOf(keysym) == key && (key != UNDEFINED ==> (down <==> pressed[key].None?))
      requires down ==> choice == Choice(keysym, lockFlags) && met == ChoiceMeets(choice)
      modifies this`lockFlags, this`synchronized, this`log, this`userPressedKeys, pressed, userPressed
      ensures Running() && old(log) <= log
      ensures userPressedKeys == old(userPressedKeys) && userPressed[..] == old(userPressed[..])
      ensures forall k :: 0 <= k < numKeys && !MayChange(keysym, down, k) ==> pressed[k] == old(pressed[k])
      ensures key != UNDEFINED ==> pressed[key] == if down then choice else None
      ensures down && choice.Some? ==> PressedLast(key, choice.value, met)
      ensures !down ==> lockFlags == old(lockFlags)
      ensures down && IsModifier(keysym) ==> lockFlags == Locked(old(lockFlags), choice)
      decreases 0, Rank(keysym, down), 1, 2
    {
      var sent: Option<Desc> := None;
      if key != UNDEFINED {
        sent := SwitchKey(key, keysym, down, choice, met);
      }
      if sent.None? && down {
        SendMissingKey(keysym);
      }
    }

    /** Toggles locks on keydown. */
    method ToggleLock(keysym: int)
      modifies this`lockFlags
      ensures lockFlags == Toggle(old(lockFlags), LockFlag(keysym))
      ensures IsModifier(keysym) ==> lockFlags == old(lockFlags)
    {
      lockFlags := Toggle(lockFlags, LockFlag(keysym));
    }

    /** Sends a key whose recorded state is to change, and records the new one. */
    method SwitchKey(key: int, keysym: int, down: bool, ghost choice: Option<Desc>, ghost met: bool)
      returns (sent: Option<Desc>)
      requires Running() && KeyOf(keysym) == key != UNDEFINED && (down <==> pressed[key].None?)
      requires down ==> choice == Choice(keysym, lockFlags) && met == ChoiceMeets(choice)
      modifies this`lockFlags, this`synchronized, this`log, this`userPressedKeys, pressed, userPressed
      ensures sent == if down then choice else old(pressed[key])
      ensures Running() && old(log) <= log && pressed[key] == if down then sent else None
      ensures userPressedKeys == old(userPressedKeys) && userPressed[..] == old(userPressed[..])
      ensures forall k :: 0 <= k < numKeys && k != key && (!down || IsModifier(keysym) || !ModifierKey(k)) ==>
                pressed[k] == old(pressed[k])
      ensures sent.None? ==> pressed[..] == old(pressed[..]) && lockFlags == old(lockFlags)
      ensures sent.Some? && down ==> PressedLast(key, sent.value, met)
      ensures !down ==> lockFlags == old(lockFlags)
      ensures down && IsModifier(keysym) ==> lockFlags == Locked(old(lockFlags), sent)
      decreases 0, Rank(keysym, down), 1, 1
    {
      sent := SendDefinedKey(key, keysym, down, choice, met);
      RecordKey(key, if down then sent else None);
    }

    /** Records the state that the server has been told a key is in. */
    method RecordKey(key: int, now: Option<Desc>)
      requires RunningBut(key, HeldBy(now)) && 0 <= key < numKeys
      requires now.Some? ==> now.value in definitions[key] && now.value.scancode != 0
      modifies pressed
      ensures Running() && pressed[..] == old(pressed[..])[key := now]
    {
      pressed[key] := now;
    }

    /** Both keys that a keysym is decomposed into are on the keyboard. */
    predicate Composite(keysym: int)
      requires table.Length == TABLE_SIZE
      reads table
    {
      match Decomposition(keysym)
      case None => false
      case Some(p) => KeyOf(p.dead) != UNDEFINED && KeyOf(p.base) != UNDEFINED
    }

    /** guac_rdp_keyboard_send_missing_key: types a key that is not on the keyboard by dead keys, or
        else sends its character, if it has one. */
    method SendMissingKey(keysym: int)
      requires Running() && !IsPressed(keysym)
      modifies this`lockFlags, this`synchronized, this`log, this`userPressedKeys, pressed, userPressed
      ensures Running() && old(log) <= log && !IsPressed(keysym)
      ensures userPressedKeys == old(userPressedKeys) && userPressed[..] == old(userPressed[..])
      ensures IsModifier(keysym) ==> pressed[..] == old(pressed[..]) && lockFlags == old(lockFlags)
      ensures forall k :: 0 <= k < numKeys && !MayChange(keysym, true, k) ==> pressed[k] == old(pressed[k])
      ensures !Composite(keysym) ==>
                && pressed[..] == old(pressed[..]) && lockFlags == old(lockFlags)
                && log == old(log) + match CodepointOf(keysym) case Some(c) => [UnicodeEvent(c)] case None => []
      ensures Composite(keysym) && old(CanCompose(keysym)) ==> Composed(old(|log|), keysym)
      decreases 0, Rank(keysym, true), 1, 0
    {
      var typed := DecomposeKeysym(keysym);
      if typed {
        return;
      }
      var codepoint;
      if keysym <= 0xFF {
        codepoint := keysym;
      } else if keysym >= 0x1000000 {
        codepoint := keysym % 0x1000000;
      } else {
        return;
      }
      ghost var before := log;
      log := log + [UnicodeEvent(codepoint)];
      OtherEvent(before, UnicodeEvent(codepoint));
    }

    /** Both keys that a keysym is decomposed into are up, and can be sent by each of their definitions. */
    predicate CanCompose(keysym: int)
      requires Loaded()
      reads this`numKeys, table, definitions, pressed
    {
      match Decomposition(keysym)
      case None => false
      case Some(p) => Free(p.dead) && Free(p.base)
    }

    predicate Free(keysym: int)
      requires Loaded()
      reads this`numKeys, table, definitions, pressed
    {
      && KeyOf(keysym) != UNDEFINED && pressed[KeyOf(keysym)].None?
      && forall i :: 0 <= i < |definitions[KeyOf(keysym)]| ==> definitions[KeyOf(keysym)][i].scancode != 0
    }

    /** Since the first n events, the server has been told that the dead key and then the base key was held down. */
    ghost predicate Composed(n: nat, keysym: int)
      requires Loaded() && Composite(keysym)
      reads this`numKeys, this`log, table, definitions
    {
      HeldInTurn(n, KeyOf(Decomposition(keysym).value.dead), KeyOf(Decomposition(keysym).value.base))
    }

    /** guac_rdp_decompose_keysym */
    method DecomposeKeysym(keysym: int) returns (typed: bool)
      requires Running() && !IsPressed(keysym)
      modifies this`lockFlags, this`synchronized, this`log, this`userPressedKeys, pressed, userPressed
      ensures Running() && old(log) <= log && !IsPressed(keysym)
      ensures userPressedKeys == old(userPressedKeys) && userPressed[..] == old(userPressed[..])
      ensures typed <==> Composite(keysym)
      ensures !typed ==> pressed[..] == old(pressed[..]) && lockFlags == old(lockFlags) && log == old(log)
      ensures forall k :: 0 <= k < numKeys && !MayChange(keysym, true, k) ==> pressed[k] == old(pressed[k])
      ensures typed && old(CanCompose(keysym)) ==> Composed(old(|log|), keysym)
      ensures IsModifier(keysym) ==> !typed
      decreases 0, Rank(keysym, true), 0, 0
    {
      match Decomposition(keysym)
      case None => return false;
      case Some(p) =>
        PartsAreOrdinary(keysym, p);
        typed := TypeParts(keysym, p.dead, p.base);
    }

    /** Types both halves of a keysym, if both of their keys are known. */
    method TypeParts(ghost keysym: int, dead: int, base: int) returns (typed: bool)
      requires Running() && !IsPressed(keysym) && keysym != dead && keysym != base && dead != base
      requires Simple(dead) && Simple(base) && !IsModifier(dead) && !IsModifier(base) && !IsModifier(keysym)
      modifies this`lockFlags, this`synchronized, this`log, this`userPressedKeys, pressed, userPressed
      ensures Running() && old(log) <= log && !IsPressed(keysym)
      ensures userPressedKeys == old(userPressedKeys) && userPressed[..] == old(userPressed[..])
      ensures typed <==> KeyOf(dead) != UNDEFINED && KeyOf(base) != UNDEFINED
      ensures !typed ==> pressed[..] == old(pressed[..]) && lockFlags == old(lockFlags) && log == old(log)
      ensures forall k :: 0 <= k < numKeys && k != KeyOf(dead) && k != KeyOf(base) && !ModifierKey(k) ==>
                pressed[k] == old(pressed[k])
      ensures typed && old(Free(dead) && Free(base)) ==> HeldInTurn(old(|log|), KeyOf(dead), KeyOf(base))
      decreases 0, 2, 6, 0
    {
      if KeyOf(dead) == UNDEFINED || KeyOf(base) == UNDEFINED {
        return false;
      }
      ApartFromParts(keysym, dead, base);
      TypeBoth(dead, base);
      return true;
    }

    /** Types a dead key and then another. */
    method TypeBoth(dead: int, base: int)
      requires Running() && Simple(dead) && !IsModifier(dead) && KeyOf(dead) != UNDEFINED && dead != base
      requires Simple(base) && !IsModifier(base) && KeyOf(base) != UNDEFINED
      modifies this`lockFlags, this`synchronized, this`log, this`userPressedKeys, pressed, userPressed
      ensures Running() && old(log) <= log
      ensures userPressedKeys == old(userPressedKeys) && userPressed[..] == old(userPressed[..])
      ensures forall k :: 0 <= k < numKeys && k != KeyOf(dead) && k != KeyOf(base) && !ModifierKey(k) ==>
                pressed[k] == old(pressed[k])
      ensures old(Free(dead) && Free(base)) ==> HeldInTurn(old(|log|), KeyOf(dead), KeyOf(base))
      decreases 0, 2, 5, 0
    {
      NotModifierKey(dead);
      NotModifierKey(base);
      DifferentKeys(dead, base);
      ghost var first := TypeKey(dead, KeyOf(dead));
      ghost var between := log;
      ghost var second := TypeKey(base, KeyOf(dead));
      assert log[..first] == between[..first];
    }

    /** Since the first n events, the server has been told that one key and then another was held down, the former
        having been released. */
    ghost predicate HeldInTurn(n: nat, first: nat, second: nat)
      reads this`log
    {
      exists a, b :: n <= a <= b <= |log| && HeldAfter(log[..a], first).Down? && HeldAfter(log[..b], first) == Up
        && HeldAfter(log[..b], second).Down?
    }

    lemma DifferentKeys(a: int, b: int)
      requires Loaded() && KeyOf(a) != UNDEFINED && a != b
      ensures KeyOf(a) != KeyOf(b)
    {
      if KeyOf(a) == KeyOf(b) { KeyInjective(a, b); }
    }

    lemma ApartFromParts(keysym: int, dead: int, base: int)
      requires Loaded() && KeyOf(dead) != UNDEFINED && KeyOf(base) != UNDEFINED && !IsModifier(keysym)
      requires keysym != dead && keysym != base
      ensures KeyOf(keysym) != UNDEFINED ==>
                KeyOf(keysym) != KeyOf(dead) && KeyOf(keysym) != KeyOf(base) && !ModifierKey(KeyOf(keysym))
    {
      if KeyOf(keysym) != UNDEFINED {
        NotModifierKey(keysym);
        DifferentKeys(keysym, dead);
        DifferentKeys(keysym, base);
      }
    }

    /** Presses and releases one key of a decomposition, which is held down in between unless it is already,
        while another key stays as it is. */
    method TypeKey(keysym: int, ghost other: int) returns (ghost at: nat)
      requires Running() && Simple(keysym) && !IsModifier(keysym) && KeyOf(keysym) != UNDEFINED && 0 <= other < numKeys
      modifies this`lockFlags, this`synchronized, this`log, this`userPressedKeys, pressed, userPressed
      ensures Running() && old(log) <= log && !IsPressed(keysym)
      ensures userPressedKeys == old(userPressedKeys) && userPressed[..] == old(userPressed[..])
      ensures forall k :: 0 <= k < numKeys && k != KeyOf(keysym) && !ModifierKey(k) ==> pressed[k] == old(pressed[k])
      ensures old(|log|) <= at <= |log|
      ensures old(Free(keysym)) ==> HeldAfter(log[..at], KeyOf(keysym)).Down?
      ensures other != KeyOf(keysym) && !ModifierKey(other) && old(pressed[other]).None? ==>
                HeldAfter(log[..at], other) == Up
      decreases 0, 2, 4, 0
    {
      SimpleIsWhole(keysym);
      UpdateKeysym(keysym, true, Synthetic);
      ghost var between := log;
      at := |log|;
      UpdateKeysym(keysym, false, Synthetic);
      assert log[..at] == between;
    }

    /** guac_rdp_keyboard_update_keysym: a key that is known and up is pressed by the first definition of the least
        cost that it then has, as the last event, and with its requirements met exactly if they can be. */
    method UpdateKeysym(keysym: int, down: bool, source: KeySource)
      requires Running()
      modifies this`lockFlags, this`synchronized, this`log, this`userPressedKeys, pressed, userPressed
      ensures Running() && old(log) <= log
      ensures source == Synthetic ==> userPressedKeys == old(userPressedKeys) && userPressed[..] == old(userPressed[..])
      ensures source == Synthetic ==>
                forall k :: 0 <= k < numKeys && !MayChange(keysym, down, k) ==> pressed[k] == old(pressed[k])
      ensures KeyOf(keysym) != UNDEFINED ==>
                pressed[KeyOf(keysym)] == if !down then None
                                          else if old(IsPressed(keysym)) then old(pressed[KeyOf(keysym)])
                                          else old(ToPress(keysym))
      ensures down && !old(IsPressed(keysym)) && old(ToPress(keysym)).Some? ==>
                PressedLast(KeyOf(keysym), old(ToPress(keysym)).value, old(WillMeet(keysym)))
      ensures source == Synthetic && !down ==> lockFlags == old(lockFlags)
      ensures source == Synthetic && down && IsModifier(keysym) && !old(IsPressed(keysym)) ==>
                lockFlags == Locked(old(lockFlags), old(ToPress(keysym)))
      ensures source == Client ==>
                if KeyOf(keysym) == UNDEFINED then userPressed[..] == old(userPressed[..])
                else userPressed[..] == old(userPressed[..])[KeyOf(keysym) := down]
      ensures source == Client && userPressedKeys == 0 ==>
                (forall k :: 0 <= k < numKeys ==> pressed[k].None?) && ServerDown(log) == {}
      decreases if source == Client then 1 else 0, Rank(keysym, down), 3, 0
    {
      ghost var choice, met := ToPress(keysym), WillMeet(keysym);
      TrackAndChange(keysym, down, source, choice, met);
      if source == Client && KeyOf(keysym) != UNDEFINED && down {
        HeldByUser(KeyOf(keysym));
      }
      ResetIfIdle(source);
    }

    /** Everything but the reset. */
    method TrackAndChange(keysym: int, down: bool, source: KeySource, ghost choice: Option<Desc>, ghost met: bool)
      requires Running() && choice == ToPress(keysym) && met == WillMeet(keysym)
      modifies this`lockFlags, this`synchronized, this`log, this`userPressedKeys, pressed, userPressed
      ensures Running() && old(log) <= log
      ensures source == Synthetic ==> userPressedKeys == old(userPressedKeys)
      ensures userPressed[..] == if source == Client && KeyOf(keysym) != UNDEFINED
                                 then old(userPressed[..])[KeyOf(keysym) := down] else old(userPressed[..])
      ensures forall k :: 0 <= k < numKeys && !MayChange(keysym, down, k) ==> pressed[k] == old(pressed[k])
      ensures KeyOf(keysym) != UNDEFINED ==>
                pressed[KeyOf(keysym)] == if !down then None
                                          else if old(IsPressed(keysym)) then old(pressed[KeyOf(keysym)])
                                          else choice
      ensures down && !old(IsPressed(keysym)) && choice.Some? ==> PressedLast(KeyOf(keysym), choice.value, met)
      ensures !down ==> lockFlags == old(lockFlags)
      ensures down && IsModifier(keysym) && !old(IsPressed(keysym)) ==> lockFlags == Locked(old(lockFlags), choice)
      decreases 0, Rank(keysym, down), 2, 1
    {
      TrackKey(keysym, down, source);
      ChangeKey(keysym, down, choice, met);
    }

    /** Synchronizes lock keys and tracks what the user holds down. */
    method TrackKey(keysym: int, down: bool, source: KeySource)
      requires Running()
      modifies this`synchronized, this`log, this`userPressedKeys, userPressed
      ensures Running() && old(log) <= log
      ensures source == Synthetic ==> userPressedKeys == old(userPressedKeys)
      ensures userPressed[..] == if source == Client && KeyOf(keysym) != UNDEFINED
                                 then old(userPressed[..])[KeyOf(keysym) := down] else old(userPressed[..])
    {
      SynchronizeOnce();
      if source == Client && KeyOf(keysym) != UNDEFINED {
        TrackUser(KeyOf(keysym), down);
      }
    }

    /** Resets the keyboard once all keys have been released on the client side. */
    method ResetIfIdle(source: KeySource)
      requires Running()
      modifies this`lockFlags, this`synchronized, this`log, this`userPressedKeys, pressed, userPressed
      ensures Running() && old(log) <= log && lockFlags == old(lockFlags)
      ensures userPressedKeys == old(userPressedKeys) && userPressed[..] == old(userPressed[..])
      ensures source == Synthetic || userPressedKeys != 0 ==> pressed[..] == old(pressed[..]) && log == old(log)
      ensures forall k :: 0 <= k < numKeys && old(pressed[k]).None? ==> pressed[k].None?
      ensures source == Client && userPressedKeys == 0 ==>
                (forall k :: 0 <= k < numKeys ==> pressed[k].None?) && ServerDown(log) == {}
      decreases if source == Client then 1 else 0, 0, 0, 0
    {
      if source == Client && userPressedKeys == 0 {
        Reset();
      }
    }

    lemma HeldByUser(key: int)
      requires Running() && 0 <= key < numKeys && userPressed[key]
      ensures userPressedKeys != 0
    {
      CountNone(userPressed[..numKeys]);
      assert userPressed[..numKeys][key];
    }

    /** Synchronizes remote lock key states with local state, if this has not yet been done. */
    method SynchronizeOnce()
      requires Running()
      modifies this`synchronized, this`log
      ensures Running() && synchronized
      ensures log == if old(synchronized) then old(log) else old(log) + [SynchronizeEvent(lockFlags)]
    {
      if !synchronized {
        ghost var before := log;
        log := log + [SynchronizeEvent(lockFlags)];
        OtherEvent(before, SynchronizeEvent(lockFlags));
        synchronized := true;
      }
    }

    /** Tracks which keys the user holds down, ignoring repeated presses and releases. */
    method TrackUser(key: int, down: bool)
      requires Running() && 0 <= key < numKeys
      modifies this`userPressedKeys, userPressed
      ensures Running() && userPressed[..] == old(userPressed[..])[key := down]
    {
      CountUpdate(userPressed[..numKeys], key, down);
      ghost var before := userPressed[..];
      if down && !userPressed[key] {
        userPressedKeys := userPressedKeys + 1;
        userPressed[key] := true;
      } else if !down && userPressed[key] {
        userPressedKeys := userPressedKeys - 1;
        userPressed[key] := false;
      }
      assert userPressed[..] == before[key := down];
      assert userPressed[..numKeys] == before[..numKeys][key := down];
    }

    /** guac_rdp_keyboard_reset: releases everything, so that nothing is held down at the server. */
    method Reset()
      requires Running()
      modifies this`lockFlags, this`synchronized, this`log, this`userPressedKeys, pressed, userPressed
      ensures Running() && old(log) <= log
      ensures userPressedKeys == old(userPressedKeys) && userPressed[..] == old(userPressed[..])
      ensures forall k :: 0 <= k < numKeys ==> pressed[k].None?
      ensures ServerDown(log) == {}
      ensures lockFlags == old(lockFlags)
      decreases 0, 4, 0, 0
    {
      var i := 0;
      while i < numKeys
        invariant 0 <= i <= numKeys && Running() && old(log) <= log
        invariant userPressedKeys == old(userPressedKeys) && userPressed[..] == old(userPressed[..])
        invariant forall k :: 0 <= k < i ==> pressed[k].None?
        invariant lockFlags == old(lockFlags)
      {
        if pressed[i].Some? {
          assert KeyOf(pressed[i].value.keysym) == i;
          UpdateKeysym(pressed[i].value.keysym, false, Synthetic);
        }
        i := i + 1;
      }
      NothingStuck(log);
    }

    /** A press that fails: a key whose definition asks for AltGr, on a keyboard without such a key, is sent without
        AltGr being active. */
    method PressWithoutAltGr(keysym: int, source: KeySource)
      requires Running() && KeyOf(keysym) != UNDEFINED && !IsPressed(keysym) && !AltGr() && KeyOf(ALTGR) == UNDEFINED
      requires ToPress(keysym).Some? && ModifierAltGr in ToPress(keysym).value.setModifiers
      modifies this`lockFlags, this`synchronized, this`log, this`userPressedKeys, pressed, userPressed
      ensures Running() && log != [] && log[|log| - 1].KeyEvent? && log[|log| - 1].pressed
      ensures log[|log| - 1].key == KeyOf(keysym) && log[|log| - 1].desc == old(ToPress(keysym)).value
      ensures !Satisfied(log[|log| - 1])
    {
      UpdateKeysym(keysym, true, source);
    }
  }

  const A_OGONEK := 0x1000105

  /** The key for U+0105 of the Polish keymap: AltGr and A. */
  const PolishLetter := Desc(A_OGONEK, 0x1E, 0, {ModifierAltGr}, {ModifierShift}, {}, {CapsLock})

  /** The run of a keyboard whose keymap, like the Polish one, asks for AltGr but has no key for it: its letter is sent
      without AltGr. */
  method TypePolishLetter() returns (keyboard: Keyboard)
    ensures fresh(keyboard) && keyboard.log != []
    ensures var e := keyboard.log[|keyboard.log| - 1];
      e.KeyEvent? && e.pressed && e.desc == PolishLetter && !Satisfied(e)
  {
    keyboard := new Keyboard(Keymap(None, [PolishLetter]));
    OnlyKey(keyboard);
    keyboard.PressWithoutAltGr(A_OGONEK, Client);
  }

  lemma OnlyKey(keyboard: Keyboard)
    requires keyboard.Running() && keyboard.numKeys <= 1
    requires forall k :: 0 <= k < keyboard.numKeys ==> keyboard.pressed[k].None?
    requires forall keysym :: keyboard.DefinitionsOf(keysym) == Extended([], [PolishLetter], keysym)
    ensures keyboard.KeyOf(A_OGONEK) != UNDEFINED && keyboard.KeyOf(ALTGR) == UNDEFINED && !keyboard.AltGr()
    ensures keyboard.ToPress(A_OGONEK) == Some(PolishLetter)
  {
    MappingsForOne(PolishLetter, A_OGONEK);
    MappingsForOne(PolishLetter, ALTGR);
    assert keyboard.DefinitionsOf(A_OGONEK) == [PolishLetter] && keyboard.DefinitionsOf(ALTGR) == [];
  }
}
