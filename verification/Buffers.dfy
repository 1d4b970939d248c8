/** The ring of rows behind the terminal: src/terminal/buffer.c. */
module Buffers {
  import opened TerminalTypes
  import opened WideChars
  import opened RowWrites
  import opened Displays
  import opened ColumnCopies

  /** The remainder of a division that truncates towards zero. */
  function Remainder(a: int, b: int): (r: int)
    requires b > 0
    ensures -b < r < b
  {
    if a >= 0 then a % b else -(-a % b)
  }

  /** The slot of a row in a ring of n rows whose row zero is in slot `top`, or as far from there
      as `top` says. */
  function Slot(top: int, row: int, n: int): (i: int)
    requires n > 0
    ensures 0 <= i < n
  {
    var index := Remainder(top + row, n);
    if index < 0 then index + n else index
  }

  /** Whatever `top` is, every slot holds exactly one of any n successive rows ... */
  lemma SlotsAreDistinct(top: int, first: int, second: int, n: int)
    requires n > 0 && first <= second < first + n
    ensures Slot(top, first, n) == Slot(top, second, n) <==> first == second
  {
    SlotIsModulo(top, first, n);
    SlotIsModulo(top, second, n);
    if Slot(top, first, n) == Slot(top, second, n) {
      var q := (top + second) / n - (top + first) / n;
      assert second - first == q * n;
      if q >= 1 {
        Multiples(1, q, n);
      } else if q <= -1 {
        Multiples(q, -1, n);
      }
    }
  }

  lemma SlotIsModulo(top: int, row: int, n: int)
    requires n > 0
    ensures Slot(top, row, n) == (top + row) % n
  {
    var a := top + row;
    if a < 0 {
      var q, r := -a / n, -a % n;
      assert a == -q * n - r;
      if r == 0 {
        ModuloOf(a, -q, 0, n);
      } else {
        ModuloOf(a, -q - 1, n - r, n);
      }
    }
  }

  lemma ModuloOf(a: int, q: int, r: int, n: int)
    requires n > 0 && 0 <= r < n && a == q * n + r
    ensures a % n == r
  {
    var q', r' := a / n, a % n;
    assert (q - q') * n == r' - r;
    if q - q' >= 1 {
      Multiples(1, q - q', n);
    } else if q - q' <= -1 {
      Multiples(q - q', -1, n);
    }
  }

  /** ... and it holds one of them. */
  lemma EverySlotIsUsed(top: int, base: int, slot: int, n: int) returns (row: int)
    requires n > 0 && 0 <= slot < n
    ensures base <= row < base + n && Slot(top, row, n) == slot
  {
    row := base + (slot - top - base) % n;
    SlotIsModulo(top, row, n);
    var q := (slot - top - base) / n;
    assert top + row == -q * n + slot;
    ModuloOf(top + row, -q, slot, n);
  }

  /** Moving the top by n in either direction changes nothing. */
  lemma SlotIsPeriodic(top: int, row: int, n: int)
    requires n > 0
    ensures Slot(top - n, row, n) == Slot(top, row, n)
  {
    SlotIsModulo(top, row, n);
    SlotIsModulo(top - n, row, n);
    var q := (top + row) / n;
    ModuloOf(top - n + row, q - 1, (top + row) % n, n);
  }

  /** The rows of a ring, starting with row `base`. */
  ghost predicate IsRing(slots: seq<Cells>, top: int, base: int, w: seq<Cells>)
    requires slots != []
  {
    && |w| == |slots|
    && forall row {:trigger Slot(top, row, |slots|)} :: base <= row < base + |slots| ==>
         w[row - base] == slots[Slot(top, row, |slots|)]
  }

  lemma RingExists(slots: seq<Cells>, top: int, base: int) returns (w: seq<Cells>)
    requires slots != []
    ensures IsRing(slots, top, base, w)
  {
    w := seq(|slots|, k => slots[Slot(top, base + k, |slots|)]);
    forall row | base <= row < base + |slots|
      ensures w[row - base] == slots[Slot(top, row, |slots|)]
    {
      assert base + (row - base) == row;
    }
  }

  ghost function RingFrom(slots: seq<Cells>, top: int, base: int): (w: seq<Cells>)
    requires slots != []
    ensures |w| == |slots|
  {
    assert exists w :: IsRing(slots, top, base, w) by { var w := RingExists(slots, top, base); }
    var w :| IsRing(slots, top, base, w);
    w
  }

  lemma RowAt(slots: seq<Cells>, top: int, base: int, k: int)
    requires 0 <= k < |slots|
    ensures RingFrom(slots, top, base)[k] == slots[Slot(top, base + k, |slots|)]
  {
    var row := base + k;
    assert IsRing(slots, top, base, RingFrom(slots, top, base));
    assert RingFrom(slots, top, base)[row - base] == slots[Slot(top, row, |slots|)];
  }

  /** A change of one slot is a change of one row, for any window that holds the row. */
  lemma RingChanged(was: seq<Cells>, now: seq<Cells>, top: int, row: int, base: int)
    requires was != [] && |was| == |now| && base <= row < base + |was|
    requires forall i :: 0 <= i < |was| && i != Slot(top, row, |was|) ==> now[i] == was[i]
    ensures RingFrom(now, top, base) == RingFrom(was, top, base)[row - base := now[Slot(top, row, |was|)]]
  {
    var before, after := RingFrom(was, top, base), RingFrom(now, top, base);
    forall k | 0 <= k < |was|
      ensures after[k] == if k == row - base then now[Slot(top, row, |was|)] else before[k]
    {
      RowAt(was, top, base, k);
      RowAt(now, top, base, k);
      if k < row - base {
        SlotsAreDistinct(top, base + k, row, |was|);
      } else if k > row - base {
        SlotsAreDistinct(top, row, base + k, |was|);
      } else {
        assert base + k == row;
      }
    }
  }

  /** Moving the top of the ring moves all rows. */
  lemma RingMovesUp(slots: seq<Cells>, was: int, now: int, amount: int, base: int)
    requires slots != [] && (now == was + amount || now == was + amount - |slots|)
    ensures RingFrom(slots, now, base) == RingFrom(slots, was, base + amount)
  {
    var moved, before := RingFrom(slots, now, base), RingFrom(slots, was, base + amount);
    forall k | 0 <= k < |slots|
      ensures moved[k] == before[k]
    {
      RowAt(slots, now, base, k);
      RowAt(slots, was, base + amount, k);
      SlotMoves(was, now, amount, base + k, base + amount + k, |slots|);
    }
  }

  lemma SlotMoves(was: int, now: int, amount: int, row: int, before: int, n: int)
    requires n > 0 && before == row + amount && (now == was + amount || now == was + amount - n)
    ensures Slot(now, row, n) == Slot(was, before, n)
  {
    SlotIsPeriodic(was + amount, row, n);
    assert was + amount + row == was + before;
  }

  /** Every slot is found somewhere. */
  lemma InRing(slots: seq<Cells>, top: int, base: int, i: int) returns (k: int)
    requires 0 <= i < |slots|
    ensures 0 <= k < |slots| && RingFrom(slots, top, base)[k] == slots[i]
  {
    var row := EverySlotIsUsed(top, base, i, |slots|);
    k := row - base;
    RowAt(slots, top, base, k);
  }

  /** Going back by `shift` rows shows the same rows further down. */
  lemma RingShift(slots: seq<Cells>, top: int, base: int, shift: int, k: int)
    requires 0 <= k < |slots| && 0 <= k + shift < |slots|
    ensures RingFrom(slots, top, base)[k + shift] == RingFrom(slots, top, base + shift)[k]
  {
    RowAt(slots, top, base, k + shift);
    RowAt(slots, top, base + shift, k);
    assert base + (k + shift) == base + shift + k;
  }

  lemma Overwritten(was: seq<Cells>, between: seq<Cells>, now: seq<Cells>, k: int, first: Cells, second: Cells)
    requires 0 <= k < |was| && between == was[k := first] && now == between[k := second]
    ensures now == was[k := second]
  {
  }

  /** guac_terminal_buffer. The characters of a row beyond its length are not part of the row. */
  class Buffer {
    const rows: array<Cells>
    const blank: Char       // default_character
    var top: int
    var length: int

    constructor (available: nat, blank: Char)
      requires available > 0
      ensures rows.Length == available && fresh(rows) && this.blank == blank && top == 0 && length == 0
      ensures forall row :: Row(row) == []
    {
      rows := new Cells[available](i => []);
      this.blank := blank;
      top, length := 0, 0;
    }

    ghost function Row(row: int): Cells
      requires rows.Length > 0
      reads this`top, rows
    {
      rows[Slot(top, row, rows.Length)]
    }

    /** Only the slot of this row has changed. */
    twostate predicate OnlyRow(row: int)
      requires rows.Length > 0
      reads this`top, rows
    {
      forall i :: 0 <= i < rows.Length && i != Slot(old(top), row, rows.Length) ==> rows[i] == old(rows[i])
    }

    /** Finds the slot of a row. */
    method GetSlot(row: int) returns (index: int)
      requires rows.Length > 0
      ensures index == Slot(top, row, rows.Length)
    {
      index := Remainder(top + row, rows.Length);
      if index < 0 {
        index := index + rows.Length;
      }
    }

    /** guac_terminal_buffer_get_row */
    method GetRow(row: int, width: int) returns (index: int)
      requires rows.Length > 0
      modifies rows
      ensures index == Slot(top, row, rows.Length) && OnlyRow(row)
      ensures Row(row) == Padded(old(Row(row)), blank, width)
    {
      index := GetSlot(row);
      if width >= |rows[index]| {
        var i := |rows[index]|;
        while i < width
          invariant i == |rows[index]| && old(|rows[index]|) <= i <= width
          invariant rows[index] == Padded(old(rows[index]), blank, i)
          invariant forall j :: 0 <= j < rows.Length && j != index ==> rows[j] == old(rows[j])
        {
          rows[index] := rows[index] + [blank];
          i := i + 1;
        }
      }
    }

    /** guac_terminal_buffer_copy_columns: copies the columns from `first` to `last`, which are what is
        left of the range after it has been fitted into the row. */
    method CopyColumns(row: int, start: int, end: int, offset: int, ghost base: int, ghost padded: Cells,
                       ghost first: int, ghost last: int, ghost right: int)
      requires rows.Length > 0 && base <= row < base + rows.Length && start <= end + 1 && right == end + offset + 1
      requires padded == Padded(Window(base)[row - base], blank, right) && -|padded| < offset < |padded|
      requires first == Clamp(start, offset, |padded|) && last == Clamp(end, offset, |padded|)
      modifies rows
      ensures 0 <= first <= last + 1 && last < |padded| && 0 <= first + offset && last + offset < |padded|
      ensures Window(base) == old(Window(base))[row - base := Copied(padded, first, last, offset)]
    {
      RowAt(rows[..], top, base, row - base);
      var index := GetRow(row, end + offset + 1);
      assert rows[index] == padded;
      var fromColumn, toColumn := FitRange(start, end, offset, |rows[index]|);
      rows[index] := Copied(rows[index], fromColumn, toColumn, offset);
      RingChanged(old(rows[..]), rows[..], top, row, base);
    }

    /** All rows of the ring, starting with row `base`. */
    ghost function Window(base: int): (w: seq<Cells>)
      requires rows.Length > 0
      reads this`top, rows
      ensures |w| == rows.Length
    {
      RingFrom(rows[..], top, base)
    }

    /** Reads a row that is in the window. */
    method ReadRow(row: int, ghost base: int) returns (cells: Cells)
      requires rows.Length > 0 && base <= row < base + rows.Length
      ensures cells == Window(base)[row - base]
    {
      var index := GetSlot(row);
      cells := rows[index];
      RowAt(rows[..], top, base, row - base);
    }

    /** Copies one row, seen in a window that holds both. */
    method CopyRow(from: int, to: int, ghost base: int)
      requires rows.Length > 0 && base <= from < base + rows.Length && base <= to < base + rows.Length
      modifies rows
      ensures Window(base) == old(Window(base))[to - base := old(Window(base))[from - base]]
    {
      var source := GetRow(from, 0);
      var cells := rows[source];
      RowAt(rows[..], top, base, from - base);
      assert old(rows[..]) == rows[..];
      RowAt(rows[..], top, base, to - base);
      var target := GetRow(to, |cells|);
      rows[target] := cells + rows[target][|cells|..];
      rows[target] := rows[target][..|cells|];
      RingChanged(old(rows[..]), rows[..], top, to, base);
    }

    /** Copies row `current` of a range whose rows on one side of it have been copied. */
    method CopyNext(current: int, offset: int, ghost base: int, ghost was: seq<Cells>, ghost lo: int, ghost k: int,
                    ghost next: int, ghost hi: int)
      returns (ghost now: seq<Cells>)
      requires rows.Length > 0 && k == current - base && |was| == rows.Length
      requires CopiedSoFar(was, Window(base), lo, k, hi, offset)
      requires next == if offset > 0 then k - 1 else k + 1
      requires 0 <= lo <= k <= hi < |was| && 0 <= lo + offset && hi + offset < |was|
      modifies rows
      ensures now == Window(base) && |now| == |was|
      ensures CopiedSoFar(was, now, lo, next, hi, offset)
    {
      ghost var before := Window(base);
      CopyRow(current, current + offset, base);
      now := Window(base);
      OneRowCopied(was, before, now, lo, k, hi, offset);
    }

    /** guac_terminal_buffer_copy_rows: as if all rows were copied at once, if both ranges fit into
        one window of the ring; an empty range copies nothing. */
    method CopyRows(start: int, end: int, offset: int, ghost base: int, ghost lo: int, ghost hi: int)
      requires rows.Length > 0 && lo == start - base && hi == end - base
      requires start <= end ==>
        base <= start && base <= start + offset && end < base + rows.Length && end + offset < base + rows.Length
      modifies rows
      ensures RowsCopied(old(Window(base)), Window(base), lo, hi, offset)
    {
      var current, step := start, 1;
      if offset > 0 {
        current, step := end, -1;
      }
      var i := start;
      ghost var was, now, k := Window(base), Window(base), current - base;
      NoneCopied(was, lo, k, hi, offset);
      while i <= end
        invariant start <= i && (start <= end ==> i <= end + 1) && current == k + base
        invariant k == if offset > 0 then hi - (i - start) else lo + (i - start)
        invariant now == Window(base) && |was| == |now| && CopiedSoFar(was, now, lo, k, hi, offset)
      {
        ghost var next := k + step;
        now := CopyNext(current, offset, base, was, lo, k, next, hi);
        current := current + step;
        k := next;
        i := i + 1;
      }
      AllCopied(was, now, lo, k, hi, offset);
    }

    /** What guac_terminal_scroll_up does to the ring: all rows move up. */
    method Advance(amount: nat, ghost base: int)
      requires 0 < rows.Length && amount <= rows.Length
      modifies this
      ensures Window(base) == old(Window(base + amount))
      ensures length == if old(length) + amount > rows.Length then rows.Length else old(length) + amount
    {
      ghost var was := top;
      top := top + amount;
      if top >= rows.Length {
        top := top - rows.Length;
      }
      RingMovesUp(rows[..], was, top, amount, base);
      length := length + amount;
      if length > rows.Length {
        length := rows.Length;
      }
    }

    /** Stores a character and its continuation cells, as far as the row goes. */
    method StoreCharacter(index: int, at: int, ch: Char)
      requires IsBase(ch) && 0 <= index < rows.Length && 0 <= at < |rows[index]|
      modifies rows
      ensures rows[index] == Overlaid(old(rows[index]), at, seq(ch.width, j => CellOf(ch, j)))
      ensures forall j :: 0 <= j < rows.Length && j != index ==> rows[j] == old(rows[j])
    {
      rows[index] := rows[index][at := ch];
      var j := 1;
      while j < ch.width
        invariant 1 <= j <= ch.width && |rows[index]| == old(|rows[index]|)
        invariant forall i :: 0 <= i < |rows[index]| ==>
                    rows[index][i] == if at <= i < at + j then CellOf(ch, i - at) else old(rows[index][i])
        invariant forall j :: 0 <= j < rows.Length && j != index ==> rows[j] == old(rows[j])
      {
        if at + j < |rows[index]| {
          rows[index] := rows[index][at + j := Continuation(ch)];
        }
        j := j + 1;
      }
    }

    method StoreCharacters(index: int, start: int, end: int, ch: Char, ghost n: nat)
      requires IsBase(ch) && 0 <= index < rows.Length && 0 <= start <= end + 1 <= |rows[index]|
      requires (n - 1) * ch.width <= end - start < n * ch.width
      modifies rows
      ensures rows[index] == Overlaid(old(rows[index]), start, Tiles(ch, n))
      ensures forall j :: 0 <= j < rows.Length && j != index ==> rows[j] == old(rows[j])
    {
      ghost var p := rows[index];
      var i := start;
      ghost var k := 0;
      assert Overlaid(p, start, Tiles(ch, 0)) == p;
      while i <= end
        invariant k <= n && i == start + k * ch.width
        invariant rows[index] == Overlaid(p, start, Tiles(ch, k))
        invariant forall j :: 0 <= j < rows.Length && j != index ==> rows[j] == old(rows[j])
      {
        OneMore(k, n, ch.width);
        TileStored(p, start, ch, k, i);
        StoreCharacter(index, i, ch);
        i := i + ch.width;
        k := k + 1;
      }
      if k < n {
        Multiples(k, n - 1, ch.width);
      }
    }

    method WriteRow(row: int, start: int, end: int, ch: Char, ghost n: nat, ghost base: int)
      requires rows.Length > 0 && base <= row < base + rows.Length && IsBase(ch) && 0 <= start <= end + 1
      requires (n - 1) * ch.width <= end - start < n * ch.width
      modifies rows
      ensures Window(base)
           == old(Window(base))[row - base := Overlaid(Padded(old(Window(base))[row - base], blank, end + 1), start,
                                                       Tiles(ch, n))]
    {
      RowAt(rows[..], top, base, row - base);
      var index := GetRow(row, end + 1);
      StoreCharacters(index, start, end, ch, n);
      RingChanged(old(rows[..]), rows[..], top, row, base);
    }

    /** guac_terminal_buffer_set_columns: n characters are written, which is as many as it takes to
        fill the range; a character of no columns changes nothing. */
    method SetColumns(row: int, start: int, end: int, ch: Char, ghost n: nat, ghost base: int)
      requires ch.width == 0 || (rows.Length > 0 && base <= row < base + rows.Length)
      requires ch.width == 0 || (IsBase(ch) && 0 <= start <= end + 1)
      requires ch.width == 0 || (n - 1) * ch.width <= end - start < n * ch.width
      modifies this`length, rows
      ensures ch.width == 0 ==> rows[..] == old(rows[..]) && length == old(length)
      ensures ch.width > 0 ==>
                Window(base) == old(Window(base))[row - base :=
                  Overlaid(Padded(old(Window(base))[row - base], blank, end + 1), start, Tiles(ch, n))]
      ensures ch.width > 0 ==> length == if ch.value != 0 && row >= old(length) then row + 1 else old(length)
    {
      if ch.width == 0 {
        return;
      }
      WriteRow(row, start, end, ch, n, base);
      if ch.value != 0 && row >= length {
        length := row + 1;
      }
    }
  }

  lemma OneMore(k: nat, n: nat, w: nat)
    requires k * w < n * w
    ensures k < n && (k + 1) * w == k * w + w <= n * w
  {
    if k >= n {
      Multiples(n, k, w);
    } else {
      Multiples(k + 1, n, w);
    }
  }

  lemma TileStored(p: Cells, start: nat, ch: Char, k: nat, i: int)
    requires IsBase(ch) && i == start + k * ch.width
    ensures Overlaid(Overlaid(p, start, Tiles(ch, k)), i, seq(ch.width, j => CellOf(ch, j)))
        == Overlaid(p, start, Tiles(ch, k + 1))
  {
    assert Tiles(ch, k + 1) == Tiles(ch, k) + seq(ch.width, j => CellOf(ch, j));
  }

  /** Rows have been copied from the end of the range they are moved towards, up to row k. */
  ghost predicate CopiedSoFar(was: seq<Cells>, now: seq<Cells>, lo: int, k: int, hi: int, offset: int) {
    if lo > hi then now == was
    else if offset > 0 then RowsCopied(was, now, k + 1, hi, offset) else RowsCopied(was, now, lo, k - 1, offset)
  }

  lemma NothingCopied(was: seq<Cells>, lo: int, hi: int, offset: int)
    requires lo > hi
    ensures RowsCopied(was, was, lo, hi, offset)
  {
    forall t | 0 <= t < |was|
      ensures Origin(t, lo, hi, offset) == t
    {
    }
  }

  lemma NoneCopied(was: seq<Cells>, lo: int, k: int, hi: int, offset: int)
    requires k == if offset > 0 then hi else lo
    ensures CopiedSoFar(was, was, lo, k, hi, offset)
  {
    NothingCopied(was, if offset > 0 then k + 1 else lo, if offset > 0 then hi else k - 1, offset);
  }

  lemma AllCopied(was: seq<Cells>, now: seq<Cells>, lo: int, k: int, hi: int, offset: int)
    requires CopiedSoFar(was, now, lo, k, hi, offset) && (lo <= hi ==> k == if offset > 0 then lo - 1 else hi + 1)
    ensures RowsCopied(was, now, lo, hi, offset)
  {
    if lo > hi {
      NothingCopied(was, lo, hi, offset);
    }
  }

  lemma OneRowCopied(was: seq<Cells>, before: seq<Cells>, after: seq<Cells>, lo: int, k: int, hi: int, offset: int)
    requires 0 <= lo <= k <= hi < |was| == |before| && 0 <= lo + offset && hi + offset < |was|
    requires after == before[k + offset := before[k]] && CopiedSoFar(was, before, lo, k, hi, offset)
    ensures CopiedSoFar(was, after, lo, if offset > 0 then k - 1 else k + 1, hi, offset)
  {
    var from, upto := if offset > 0 then k else lo, if offset > 0 then hi else k;
    var from', upto' := if offset > 0 then k + 1 else lo, if offset > 0 then hi else k - 1;
    assert before[k] == was[Origin(k, from', upto', offset)] == was[k];
    forall t | 0 <= t < |was|
      ensures 0 <= Origin(t, from, upto, offset) < |was| && after[t] == was[Origin(t, from, upto, offset)]
    {
      assert before[t] == was[Origin(t, from', upto', offset)];
    }
  }

  /** Where place t gets its contents from, if those from lo to hi are copied to `offset` places further on. */
  function Origin(t: int, lo: int, hi: int, offset: int): (i: int) {
    if lo <= t - offset <= hi then t - offset else t
  }

  /** The first `count` places hold what was there before places lo to hi were copied. */
  ghost predicate Relocated<T>(was: seq<T>, now: seq<T>, count: int, lo: int, hi: int, offset: int) {
    && count <= |now| == |was|
    && forall t {:trigger now[t]} :: 0 <= t < count ==>
         0 <= Origin(t, lo, hi, offset) < |was| && now[t] == was[Origin(t, lo, hi, offset)]
  }

  /** The rows from lo to hi of a window are also found `offset` rows away. */
  ghost predicate RowsCopied(was: seq<Cells>, now: seq<Cells>, lo: int, hi: int, offset: int) {
    Relocated(was, now, |was|, lo, hi, offset)
  }

  /** Fits a range and the range it is to be moved to into `size` columns. */
  method FitRange(start: int, end: int, offset: int, size: int) returns (first: int, last: int)
    requires start <= end + 1 && -size < offset < size
    ensures first == Clamp(start, offset, size) && last == Clamp(end, offset, size)
    ensures 0 <= first <= last + 1 && last < size && 0 <= first + offset && last + offset < size
  {
    first := Fit(start, 0, size - 1);
    last := Fit(end, 0, size - 1);
    first := Fit(first + offset, 0, size - 1) - offset;
    last := Fit(last + offset, 0, size - 1) - offset;
  }
}
