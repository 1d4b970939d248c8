/** By which definition a key is sent, and whether its requirements can be met: src/protocols/nebulardp/keyboard.c
    without its state. */
module KeyChoices {
  import opened Options
  import opened Keymaps
  import opened KeyEvents

  /** guac_rdp_keyboard_get_modifier_flags, given whether Shift and AltGr are active. */
  function ModifierFlags(shift: bool, altGr: bool): set<Modifier> {
    (if shift then {ModifierShift} else {}) + (if altGr then {ModifierAltGr} else {})
  }

  /** The requirements of a definition do not contradict each other. */
  predicate Typable(d: Desc) {
    d.setModifiers !! d.clearModifiers && d.setLocks !! d.clearLocks
  }

  function Bit(b: bool): nat {
    if b then 1 else 0
  }

  /** guac_rdp_count_bits, for each kind of mask. */
  function CountLocks(s: set<Lock>): nat {
    Bit(ScrollLock in s) + Bit(NumLock in s) + Bit(CapsLock in s) + Bit(KanaLock in s)
  }

  function CountModifiers(s: set<Modifier>): nat {
    Bit(ModifierShift in s) + Bit(ModifierAltGr in s)
  }

  /** guac_rdp_keyboard_get_cost */
  function Cost(d: Desc, modifiers: set<Modifier>, locks: set<Lock>): nat {
    var updateLocks := (d.setLocks - locks) + (d.clearLocks * locks);
    var updateModifiers := (d.clearModifiers * modifiers) + (d.setModifiers - modifiers);
    1 + CountLocks(updateLocks) * 2 + CountModifiers(updateModifiers)
  }

  /** A definition has the least possible cost exactly when its requirements are met already. */
  lemma LeastCost(key: nat, d: Desc, modifiers: set<Modifier>, locks: set<Lock>)
    ensures Cost(d, modifiers, locks) == 1 <==> Satisfied(KeyEvent(key, d, true, modifiers, locks))
  {
    var updateLocks := (d.setLocks - locks) + (d.clearLocks * locks);
    var updateModifiers := (d.clearModifiers * modifiers) + (d.setModifiers - modifiers);
    if Cost(d, modifiers, locks) == 1 {
      assert CountLocks(updateLocks) == 0 && CountModifiers(updateModifiers) == 0;
      forall l: Lock
        ensures l !in updateLocks && (l in d.setLocks ==> l in locks) && (l in d.clearLocks ==> l !in locks)
      {
        match l case ScrollLock | NumLock | CapsLock | KanaLock =>
      }
      forall m: Modifier
        ensures m !in updateModifiers && (m in d.setModifiers ==> m in modifiers)
        ensures m in d.clearModifiers ==> m !in modifiers
      {
        match m case ModifierShift | ModifierAltGr =>
      }
    }
  }

  /** All definitions before this one cost more, and none of the others costs less. */
  ghost predicate IsCheapest(defs: seq<Desc>, modifiers: set<Modifier>, locks: set<Lock>, at: int) {
    && 0 <= at < |defs|
    && forall j {:trigger Cost(defs[j], modifiers, locks)} :: 0 <= j < |defs| ==>
         if j < at then Cost(defs[at], modifiers, locks) < Cost(defs[j], modifiers, locks)
         else Cost(defs[at], modifiers, locks) <= Cost(defs[j], modifiers, locks)
  }

  lemma {:induction false} CheapestExists(defs: seq<Desc>, modifiers: set<Modifier>, locks: set<Lock>)
    returns (at: int)
    requires defs != []
    ensures IsCheapest(defs, modifiers, locks, at)
  {
    var n := |defs| - 1;
    if n == 0 {
      at := 0;
    } else {
      at := CheapestExists(defs[..n], modifiers, locks);
      forall j | 0 <= j < n
        ensures Cost(defs[at], modifiers, locks) <= Cost(defs[j], modifiers, locks)
        ensures j < at ==> Cost(defs[at], modifiers, locks) < Cost(defs[j], modifiers, locks)
      {
        assert Cost(defs[..n][j], modifiers, locks) == Cost(defs[j], modifiers, locks);
      }
      if Cost(defs[n], modifiers, locks) < Cost(defs[at], modifiers, locks) {
        at := n;
      }
    }
  }

  lemma CheapestOnce(defs: seq<Desc>, modifiers: set<Modifier>, locks: set<Lock>, a: int, b: int)
    requires IsCheapest(defs, modifiers, locks, a) && IsCheapest(defs, modifiers, locks, b)
    ensures a == b
  {
    assert Cost(defs[a], modifiers, locks) <= Cost(defs[b], modifiers, locks);
    assert Cost(defs[b], modifiers, locks) <= Cost(defs[a], modifiers, locks);
  }

  /** The first definition of the least cost. */
  ghost function CheapestAt(defs: seq<Desc>, modifiers: set<Modifier>, locks: set<Lock>): (at: int)
    requires defs != []
    ensures 0 <= at < |defs|
  {
    assert exists at :: IsCheapest(defs, modifiers, locks, at) by {
      var at := CheapestExists(defs, modifiers, locks);
    }
    var at :| IsCheapest(defs, modifiers, locks, at);
    at
  }

  /** Finds it: part of guac_rdp_keyboard_get_definition. */
  method FirstCheapest(defs: seq<Desc>, modifiers: set<Modifier>, locks: set<Lock>) returns (at: int)
    requires defs != []
    ensures 0 <= at < |defs| && at == CheapestAt(defs, modifiers, locks)
    ensures forall j :: 0 <= j < at ==> Cost(defs[at], modifiers, locks) < Cost(defs[j], modifiers, locks)
    ensures forall j :: at <= j < |defs| ==> Cost(defs[at], modifiers, locks) <= Cost(defs[j], modifiers, locks)
  {
    ghost var costs := seq(|defs|, j requires 0 <= j < |defs| => Cost(defs[j], modifiers, locks));
    at := 0;
    var bestCost := Cost(defs[0], modifiers, locks);
    var i := 1;
    while i < |defs|
      invariant 1 <= i <= |defs| && 0 <= at < i && bestCost == costs[at]
      invariant forall j :: 0 <= j < at ==> bestCost < costs[j]
      invariant forall j :: at <= j < i ==> bestCost <= costs[j]
    {
      var cost := Cost(defs[i], modifiers, locks);
      if cost < bestCost {
        at := i;
        bestCost := cost;
      }
      i := i + 1;
    }
    forall j | 0 <= j < |defs|
      ensures Cost(defs[j], modifiers, locks) == costs[j]
    {
    }
    CheapestOnce(defs, modifiers, locks, at, CheapestAt(defs, modifiers, locks));
  }

  /** The definition that a key with these definitions is sent by, unless it cannot be sent. */
  ghost function Sendable(defs: seq<Desc>, modifiers: set<Modifier>, locks: set<Lock>): (d: Option<Desc>)
    ensures d.Some? ==> d.value in defs && d.value.scancode != 0
  {
    if defs == [] then None
    else
      var d := defs[CheapestAt(defs, modifiers, locks)];
      if d.scancode == 0 then None else Some(d)
  }

  /** Keys that ask for no modifiers can be pressed without pressing or releasing modifiers. */
  predicate PlainDefinitions(defs: seq<Desc>) {
    forall i :: 0 <= i < |defs| ==> defs[i].setModifiers == {} && defs[i].clearModifiers == {}
  }

  /** For these, it does not matter which modifiers are active. */
  lemma PlainCheapest(defs: seq<Desc>, a: set<Modifier>, b: set<Modifier>, locks: set<Lock>)
    requires defs != [] && PlainDefinitions(defs)
    ensures CheapestAt(defs, a, locks) == CheapestAt(defs, b, locks)
  {
    var at := CheapestAt(defs, a, locks);
    forall j | 0 <= j < |defs|
      ensures Cost(defs[j], a, locks) == Cost(defs[j], b, locks)
    {
      PlainCost(defs[j], a, b, locks);
    }
    CheapestOnce(defs, b, locks, at, CheapestAt(defs, b, locks));
  }

  lemma PlainCost(d: Desc, a: set<Modifier>, b: set<Modifier>, locks: set<Lock>)
    requires d.setModifiers == {} && d.clearModifiers == {}
    ensures Cost(d, a, locks) == Cost(d, b, locks)
  {
  }

  lemma PlainSendable(defs: seq<Desc>, a: set<Modifier>, b: set<Modifier>, locks: set<Lock>)
    requires PlainDefinitions(defs)
    ensures Sendable(defs, a, locks) == Sendable(defs, b, locks)
  {
    if defs != [] {
      PlainCheapest(defs, a, b, locks);
    }
  }

  /** Flips the given locks. */
  function Toggle(locks: set<Lock>, flipped: set<Lock>): set<Lock> {
    (locks - flipped) + (flipped - locks)
  }

  /** The locks once they have been updated for a definition, if any. */
  function Locked(locks: set<Lock>, sent: Option<Desc>): set<Lock> {
    match sent
    case Some(d) => (locks + d.setLocks) - d.clearLocks
    case None => locks
  }

  /** The definition by which a modifier key is pressed because it is wanted, if it has to be and can be. */
  ghost function Pressing(wanted: bool, active: bool, defs: seq<Desc>, locks: set<Lock>): Option<Desc> {
    if wanted && !active then Sendable(defs, {}, locks) else None
  }

  /** Whether a modifier is active once it has been switched. */
  function Switched(wanted: bool, unwanted: bool, active: bool, sent: Option<Desc>): bool {
    if wanted && !active then sent.Some? else if unwanted && active then false else active
  }

  /** Everything that a definition requires can be brought about, given which modifiers are active, the
      definitions of the Shift and AltGr keys, and the locks: a modifier that is wanted is active already or its key
      can be sent, and pressing these keys does not upset the locks. */
  ghost predicate Meets(d: Desc, shift: bool, altGr: bool, shiftDefs: seq<Desc>, altGrDefs: seq<Desc>,
                        locks: set<Lock>) {
    var locked := Locked(locks, Some(d));
    var first := Pressing(ModifierShift in d.setModifiers, shift, shiftDefs, locked);
    var second := Pressing(ModifierAltGr in d.setModifiers, altGr, altGrDefs, Locked(locked, first));
    var final := Locked(Locked(locked, first), second);
    && Typable(d)
    && (ModifierShift in d.setModifiers ==> shift || first.Some?)
    && (ModifierAltGr in d.setModifiers ==> altGr || second.Some?)
    && d.setLocks <= final && d.clearLocks !! final
  }

  predicate LockFree(defs: seq<Desc>) {
    forall i :: 0 <= i < |defs| ==> defs[i].setLocks == {} && defs[i].clearLocks == {}
  }

  /** A key that can be sent by each of its definitions, none of which depends on locks. */
  predicate Ready(defs: seq<Desc>) {
    defs != [] && LockFree(defs) && forall i :: 0 <= i < |defs| ==> defs[i].scancode != 0
  }

  /** A definition whose requirements can always be met: those of the modifier keys that it wants are ready. */
  predicate Meetable(d: Desc, shiftDefs: seq<Desc>, altGrDefs: seq<Desc>) {
    && Typable(d) && (ModifierShift in d.setModifiers ==> Ready(shiftDefs))
    && (ModifierAltGr in d.setModifiers ==> Ready(altGrDefs))
  }

  lemma ReadyIsSendable(defs: seq<Desc>, modifiers: set<Modifier>, locks: set<Lock>)
    requires Ready(defs)
    ensures Sendable(defs, modifiers, locks).Some?
    ensures Locked(locks, Sendable(defs, modifiers, locks)) == locks
  {
  }

  lemma MeetableMeets(d: Desc, shift: bool, altGr: bool, shiftDefs: seq<Desc>, altGrDefs: seq<Desc>, locks: set<Lock>)
    requires Meetable(d, shiftDefs, altGrDefs)
    ensures Meets(d, shift, altGr, shiftDefs, altGrDefs, locks)
  {
    var locked := Locked(locks, Some(d));
    if ModifierShift in d.setModifiers {
      ReadyIsSendable(shiftDefs, {}, locked);
    }
    if ModifierAltGr in d.setModifiers {
      ReadyIsSendable(altGrDefs, {}, locked);
    }
  }

  /** If modifier keys do not depend on locks, all that matters is that each modifier that is wanted is active or
      that its key can be sent. */
  lemma MeetsIff(d: Desc, shift: bool, altGr: bool, shiftDefs: seq<Desc>, altGrDefs: seq<Desc>, locks: set<Lock>)
    requires LockFree(shiftDefs) && LockFree(altGrDefs)
    ensures var locked := Locked(locks, Some(d));
      Meets(d, shift, altGr, shiftDefs, altGrDefs, locks)
      <==> && Typable(d)
           && (ModifierShift in d.setModifiers ==> shift || Sendable(shiftDefs, {}, locked).Some?)
           && (ModifierAltGr in d.setModifiers ==> altGr || Sendable(altGrDefs, {}, locked).Some?)
  {
    var locked := Locked(locks, Some(d));
    var first := Pressing(ModifierShift in d.setModifiers, shift, shiftDefs, locked);
    assert Locked(locked, first) == locked;
  }

  lemma FlagsIff(wanted: set<Modifier>, unwanted: set<Modifier>, shift: bool, altGr: bool)
    ensures var flags := ModifierFlags(shift, altGr);
      wanted <= flags && unwanted !! flags
      <==> && (ModifierShift in wanted ==> shift) && (ModifierAltGr in wanted ==> altGr)
           && (ModifierShift in unwanted ==> !shift) && (ModifierAltGr in unwanted ==> !altGr)
  {
    var flags := ModifierFlags(shift, altGr);
    assert (ModifierShift in flags <==> shift) && (ModifierAltGr in flags <==> altGr);
    forall m | m in wanted || m in unwanted
      ensures m in flags <==> if m == ModifierShift then shift else altGr
    {
      match m case ModifierShift => case ModifierAltGr =>
    }
  }

  lemma DisjointIff(wanted: set<Modifier>, unwanted: set<Modifier>)
    ensures wanted !! unwanted <==> && !(ModifierShift in wanted && ModifierShift in unwanted)
                                    && !(ModifierAltGr in wanted && ModifierAltGr in unwanted)
  {
    forall m | m in wanted && m in unwanted
      ensures m == ModifierShift || m == ModifierAltGr
    {
      match m case ModifierShift => case ModifierAltGr =>
    }
  }

  /** Once the locks and then the modifiers have been updated for a definition, its requirements are met exactly if
      they could be. */
  lemma MetIff(d: Desc, shift: bool, altGr: bool, shiftDefs: seq<Desc>, altGrDefs: seq<Desc>, locks: set<Lock>,
               shift': bool, altGr': bool, final: set<Lock>)
    requires var locked := Locked(locks, Some(d));
      var first := Pressing(ModifierShift in d.setModifiers, shift, shiftDefs, locked);
      var second := Pressing(ModifierAltGr in d.setModifiers, altGr, altGrDefs, Locked(locked, first));
      && shift' == Switched(ModifierShift in d.setModifiers, ModifierShift in d.clearModifiers, shift, first)
      && altGr' == Switched(ModifierAltGr in d.setModifiers, ModifierAltGr in d.clearModifiers, altGr, second)
      && final == Locked(Locked(locked, first), second)
    ensures Meets(d, shift, altGr, shiftDefs, altGrDefs, locks)
       <==> Satisfied(KeyEvent(0, d, true, ModifierFlags(shift', altGr'), final))
  {
    FlagsIff(d.setModifiers, d.clearModifiers, shift', altGr');
    DisjointIff(d.setModifiers, d.clearModifiers);
  }
}
