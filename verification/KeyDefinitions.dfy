/** The definitions that keys get out of keymaps: the loading part of src/protocols/nebulardp/keyboard.c. */
module KeyDefinitions {
  import opened Options
  import opened Keymaps

  const MAX_DEFINITIONS := 4       // GUAC_RDP_KEY_MAX_DEFINITIONS

  /** guac_rdp_keymap */
  datatype Keymap = Keymap(parent: Option<Keymap>, mapping: seq<Desc>) {
    /** All mappings of a keymap, those of its parent first. */
    function Mappings(): seq<Desc> {
      (match parent case Some(p) => p.Mappings() case None => []) + mapping
    }
  }

  /** guac_rdp_keyboard_map_key: the place of a keysym in the lookup table. */
  function PlaceOf(keysym: int): Option<int> {
    if 0x0000 <= keysym <= 0xFFFF then Some(keysym)
    else if 0x1000000 <= keysym <= 0x100FFFF then Some(0x10000 + (keysym - 0x1000000))
    else None
  }

  /** Those of the mappings that are for a keysym. */
  function MappingsFor(mappings: seq<Desc>, keysym: int): (r: seq<Desc>) {
    if mappings == [] then []
    else MappingsFor(mappings[..|mappings| - 1], keysym)
         + if mappings[|mappings| - 1].keysym == keysym then [mappings[|mappings| - 1]] else []
  }

  lemma {:induction false} MappingsForBoth(a: seq<Desc>, b: seq<Desc>, keysym: int)
    ensures MappingsFor(a + b, keysym) == MappingsFor(a, keysym) + MappingsFor(b, keysym)
  {
    if b == [] {
      assert a + b == a;
    } else {
      var n := |b| - 1;
      MappingsForBoth(a, b[..n], keysym);
      assert (a + b)[..|a + b| - 1] == a + b[..n];
    }
  }

  lemma MappingsForOne(mapping: Desc, keysym: int)
    ensures MappingsFor([mapping], keysym) == if mapping.keysym == keysym then [mapping] else []
  {
    assert MappingsFor([mapping][..0], keysym) == [];
  }

  /** As many of the definitions as a key has room for. */
  function FirstFew(defs: seq<Desc>): (r: seq<Desc>) {
    if |defs| <= MAX_DEFINITIONS then defs else defs[..MAX_DEFINITIONS]
  }

  /** The definitions that a keysym gets out of some mappings, if it has `defs` already. */
  function Extended(defs: seq<Desc>, mappings: seq<Desc>, keysym: int): (r: seq<Desc>) {
    if PlaceOf(keysym).None? then defs else FirstFew(defs + MappingsFor(mappings, keysym))
  }

  /** Loading some mappings after others is loading all of them. */
  lemma ExtendedTwice(defs: seq<Desc>, a: seq<Desc>, b: seq<Desc>, keysym: int)
    ensures Extended(Extended(defs, a, keysym), b, keysym) == Extended(defs, a + b, keysym)
  {
    MappingsForBoth(a, b, keysym);
  }

  /** The definitions `now` of every keysym are those that `was` has, extended by some mappings. */
  ghost predicate AreExtended(was: imap<int, seq<Desc>>, mappings: seq<Desc>, now: imap<int, seq<Desc>>) {
    forall keysym {:trigger Extended(was[keysym], mappings, keysym)} :: keysym in was ==>
      keysym in now && now[keysym] == Extended(was[keysym], mappings, keysym)
  }

  lemma ExtendedByNone(was: imap<int, seq<Desc>>)
    requires forall keysym :: keysym in was ==> |was[keysym]| <= MAX_DEFINITIONS
    ensures AreExtended(was, [], was)
  {
    forall keysym | keysym in was
      ensures was[keysym] == Extended(was[keysym], [], keysym)
    {
      assert was[keysym] + [] == was[keysym];
    }
  }

  lemma ExtendedByOne(was: imap<int, seq<Desc>>, now: imap<int, seq<Desc>>, mapping: Desc)
    requires forall k :: k in was && k in now && |was[k]| <= MAX_DEFINITIONS
    requires forall k :: now[k] == if k != mapping.keysym || PlaceOf(k).None? || |was[k]| == MAX_DEFINITIONS then was[k]
                                   else was[k] + [mapping]
    ensures AreExtended(was, [mapping], now)
  {
    forall k
      ensures now[k] == Extended(was[k], [mapping], k)
    {
      MappingsForOne(mapping, k);
    }
  }

  lemma ExtendedByBoth(was: imap<int, seq<Desc>>, a: seq<Desc>, between: imap<int, seq<Desc>>, b: seq<Desc>,
                       now: imap<int, seq<Desc>>)
    requires AreExtended(was, a, between) && AreExtended(between, b, now)
    ensures AreExtended(was, a + b, now)
  {
    forall keysym | keysym in was
      ensures keysym in now && now[keysym] == Extended(was[keysym], a + b, keysym)
    {
      var first := Extended(was[keysym], a, keysym);
      var second := Extended(between[keysym], b, keysym);
      ExtendedTwice(was[keysym], a, b, keysym);
    }
  }

  /** One more of the mappings. */
  lemma ExtendedByNext(was: imap<int, seq<Desc>>, between: imap<int, seq<Desc>>, now: imap<int, seq<Desc>>,
                       mappings: seq<Desc>, n: nat, next: nat)
    requires n < |mappings| && next == n + 1 && AreExtended(was, mappings[..n], between)
    requires forall k :: k in between && k in now && |between[k]| <= MAX_DEFINITIONS
    requires forall k :: now[k] == if k != mappings[n].keysym || PlaceOf(k).None? || |between[k]| == MAX_DEFINITIONS
                                   then between[k] else between[k] + [mappings[n]]
    ensures AreExtended(was, mappings[..next], now)
  {
    ExtendedByOne(between, now, mappings[n]);
    ExtendedByBoth(was, mappings[..n], between, [mappings[n]], now);
    assert mappings[..n] + [mappings[n]] == mappings[..next];
  }
}
