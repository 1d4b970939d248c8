/** The keyboard state of an RDP session: src/protocols/nebulardp/keyboard.c, with
    guac_rdp_decompose_keysym of src/protocols/nebulardp/decompose.c. */
module KeyEvents {
  import opened Keymaps

  /** What is sent to the RDP server.  A key event is recorded along with the key it is sent for,
      and with the modifier and lock flags tracked at the time. */
  datatype Event =
    | KeyEvent(key: nat, desc: Desc, pressed: bool, modifiers: set<Modifier>, locks: set<Lock>)
    | UnicodeEvent(codepoint: int)
    | SynchronizeEvent(locks: set<Lock>)

  type Scan = (int, int)   // scancode and flags

  function ScanOf(desc: Desc): Scan {
    (desc.scancode, desc.flags)
  }

  datatype Held = Up | Down(scan: Scan) | Broken

  /** The state of a key after the logged events; Broken if its presses and releases have not
      alternated with the same scancode and flags. */
  function HeldAfter(log: seq<Event>, key: nat): Held {
    if log == [] then Up
    else
      var before, e := HeldAfter(log[..|log| - 1], key), log[|log| - 1];
      if !e.KeyEvent? || e.key != key then before
      else if e.pressed then (if before == Up then Down(ScanOf(e.desc)) else Broken)
      else if before == Down(ScanOf(e.desc)) then Up else Broken
  }

  /** The scancodes that the server takes to be held down after the logged events. */
  function ServerDown(log: seq<Event>): set<Scan> {
    if log == [] then {}
    else
      var before, e := ServerDown(log[..|log| - 1]), log[|log| - 1];
      if !e.KeyEvent? then before
      else if e.pressed then before + {ScanOf(e.desc)}
      else before - {ScanOf(e.desc)}
  }

  lemma {:induction false} BrokenForGood(log: seq<Event>, more: seq<Event>, key: nat)
    requires HeldAfter(log, key) == Broken && log <= more
    ensures HeldAfter(more, key) == Broken
  {
    if log != more {
      BrokenForGood(log, more[..|more| - 1], key);
    }
  }

  /** If no key's events are broken, every scancode held down at the server is accounted for by a
      key that is down. */
  lemma {:induction false} ServerDownIsHeld(log: seq<Event>, scan: Scan) returns (key: nat)
    requires forall k: nat :: HeldAfter(log, k) != Broken
    requires scan in ServerDown(log)
    ensures HeldAfter(log, key) == Down(scan)
  {
    var n := |log| - 1;
    var e := log[n];
    if e.KeyEvent? && e.pressed && ScanOf(e.desc) == scan {
      key := e.key;
      assert HeldAfter(log, key) != Broken;
    } else {
      forall k: nat ensures HeldAfter(log[..n], k) != Broken {
        if HeldAfter(log[..n], k) == Broken { BrokenForGood(log[..n], log, k); }
      }
      key := ServerDownIsHeld(log[..n], scan);
      assert HeldAfter(log, key) != Broken;
    }
  }

  /** When all keys are up, the server has nothing held down. */
  lemma NothingStuck(log: seq<Event>)
    requires forall k: nat :: HeldAfter(log, k) == Up
    ensures ServerDown(log) == {}
  {
    if scan :| scan in ServerDown(log) {
      var k := ServerDownIsHeld(log, scan);
    }
  }

  lemma HeldAppend(log: seq<Event>, e: Event, key: nat)
    ensures !e.KeyEvent? || e.key != key ==> HeldAfter(log + [e], key) == HeldAfter(log, key)
    ensures e.KeyEvent? && e.key == key && e.pressed && HeldAfter(log, key) == Up ==>
              HeldAfter(log + [e], key) == Down(ScanOf(e.desc))
    ensures e.KeyEvent? && e.key == key && !e.pressed && HeldAfter(log, key) == Down(ScanOf(e.desc)) ==>
              HeldAfter(log + [e], key) == Up
  {
    assert (log + [e])[..|log|] == log;
  }

  /** The key event was sent with everything in place that its definition requires. */
  predicate Satisfied(e: Event) {
    e.KeyEvent? && e.pressed ==>
      && e.desc.setModifiers <= e.modifiers && e.desc.clearModifiers !! e.modifiers
      && e.desc.setLocks <= e.locks && e.desc.clearLocks !! e.locks
  }
}
