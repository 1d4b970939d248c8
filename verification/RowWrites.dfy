/** Writing into rows of characters, as far as the buffer is concerned: guac_terminal_set_columns of
    src/terminal/terminal.c. */
module RowWrites {
  import opened TerminalTypes
  import opened WideChars

  /** guac_terminal_buffer_get_row: the row, extended to at least the given width. */
  function Padded(c: Cells, blank: Char, width: int): (r: Cells)
    ensures |r| == (if width > |c| then width else |c|)
    ensures forall i :: 0 <= i < |r| ==> r[i] == if i < |c| then c[i] else blank
  {
    if width > |c| then c + seq(width - |c|, i => blank) else c
  }

  function Continuation(ch: Char): Char {
    Char(CONTINUATION, ch.attributes, 0)
  }

  predicate IsBase(ch: Char) {
    !IsContinuation(ch) && ch.width >= 1
  }

  /** The cell `j` columns into a character. */
  function CellOf(ch: Char, j: int): Char {
    if j == 0 then ch else Continuation(ch)
  }

  /** The cells of n copies of a character. */
  function Tiles(ch: Char, n: nat): (t: Cells)
    requires IsBase(ch)
    ensures |t| == n * ch.width
  {
    if n == 0 then [] else Tiles(ch, n - 1) + seq(ch.width, j => CellOf(ch, j))
  }

  /** c with n copies of a character written from column `start` on. */
  function Written(c: Cells, blank: Char, start: nat, ch: Char, n: nat): (r: Cells)
    requires IsBase(ch)
    ensures |r| >= |c| && |r| >= start + n * ch.width
  {
    var end := start + n * ch.width;
    var p := Padded(c, blank, end);
    p[..start] + Tiles(ch, n) + p[end..]
  }

  /** p with the cells t in place of its own from `start` on, as far as p goes. */
  function Overlaid(p: Cells, start: nat, t: Cells): (r: Cells)
    ensures |r| == |p|
    ensures forall i :: 0 <= i < |p| ==> r[i] == if start <= i < start + |t| then t[i - start] else p[i]
  {
    seq(|p|, i requires 0 <= i < |p| => if start <= i < start + |t| then t[i - start] else p[i])
  }

  lemma WrittenIsOverlaid(c: Cells, blank: Char, start: nat, ch: Char, n: nat, end: int)
    requires IsBase(ch) && end == start + n * ch.width
    ensures Written(c, blank, start, ch, n) == Overlaid(Padded(c, blank, end), start, Tiles(ch, n))
  {
  }

  /** ... and with the visible cursor, if it is in `cursor`, shown on top. */
  function Shown(c: Cells, blank: Char, start: nat, ch: Char, n: nat, cursor: int): (r: Cells)
    requires IsBase(ch)
    ensures |r| >= start + n * ch.width
  {
    var r := Written(c, blank, start, ch, n);
    if start <= cursor < start + n * ch.width then Overlaid(r, cursor, Tiles(WithCursor(ch), 1)) else r
  }

  // Parts of rows.

  lemma IntactIsSane(c: Cells)
    requires Intact(c)
    ensures Sane(c)
  {
    forall i | 0 <= i < |c| && !IsContinuation(c[i])
      ensures c[i].width >= 1
    {
      assert Follows(c, i, |c|);
    }
  }

  /** Any part of a row of whole characters is one. */
  lemma IntactParts(c: Cells, lo: int, hi: int)
    requires Intact(c) && 0 <= lo <= hi <= |c|
    ensures Part(c, lo, hi) && Closes(c, lo, |c|)
  {
    forall i | lo <= i < hi && !IsContinuation(c[i])
      ensures Follows(c, i, hi)
    {
      assert Follows(c, i, |c|);
    }
  }

  /** A break keeps a row of whole characters one, and clears at most the one that it cuts. */
  lemma IntactBreak(c: Cells, edge: int)
    requires Intact(c) && 0 <= edge <= |c|
    ensures Intact(ForceBreak(c, edge)) && OnlyClears(c, ForceBreak(c, edge))
    ensures Mended(c, ForceBreak(c, edge), 0, edge) && Mended(c, ForceBreak(c, edge), edge, |c|)
  {
    IntactIsSane(c);
    IntactParts(c, 0, 0);
    IntactParts(c, 0, edge);
    IntactParts(c, edge, |c|);
    if 0 < edge {
      SecondBreak(c, 0, edge);
    } else if c != [] {
      IntactParts(c, |c|, |c|);
      RightMended(c, 0, |c|);
      MendedSame(c, c, 0, 0);
      ClosesStill(c, BreakRight(c, 0), 0, |c|);
    }
  }

  /** The same as far as the columns are concerned. */
  predicate SameShape(a: Char, b: Char) {
    IsContinuation(a) == IsContinuation(b) && (!IsContinuation(a) ==> a.width == b.width)
  }

  /** Parts stay parts wherever they are copied to. */
  lemma PartMoves(c: Cells, lo: int, hi: int, r: Cells, off: int)
    requires Part(c, lo, hi) && 0 <= lo + off && hi + off <= |r|
    requires forall i :: lo + off <= i < hi + off ==> SameShape(r[i], c[i - off])
    ensures Part(r, lo + off, hi + off) && (Opens(c, lo) && lo < hi ==> Opens(r, lo + off))
    ensures Closes(c, lo, hi) ==> Closes(r, lo + off, hi + off)
  {
    forall i | lo + off <= i < hi + off && !IsContinuation(r[i])
      ensures Follows(r, i, hi + off)
    {
      assert Follows(c, i - off, hi);
      forall j | i < j < hi + off && j < i + r[i].width
        ensures IsContinuation(r[j])
      {
        assert IsContinuation(c[j - off]);
      }
    }
    forall i | Closes(c, lo, hi) && lo + off <= i < hi + off && !IsContinuation(r[i])
      ensures i + r[i].width <= hi + off
    {
      assert !IsContinuation(c[i - off]);
    }
  }

  lemma PaddedIntact(c: Cells, blank: Char, width: int)
    requires Intact(c) && !IsContinuation(blank) && blank.width == 1
    ensures Intact(Padded(c, blank, width))
  {
    var r := Padded(c, blank, width);
    forall i | 0 <= i < |r| && !IsContinuation(r[i])
      ensures Follows(r, i, |r|) && i + r[i].width <= |r|
    {
      assert i < |c| ==> Follows(c, i, |c|);
    }
  }

  lemma {:induction false} TilesIntact(ch: Char, n: nat)
    requires IsBase(ch)
    ensures Intact(Tiles(ch, n))
  {
    if n > 0 {
      TilesIntact(ch, n - 1);
      var t, before := Tiles(ch, n), Tiles(ch, n - 1);
      var mid := |before|;
      PartMoves(before, 0, mid, t, 0);
      assert !IsContinuation(t[mid]) && Follows(t, mid, |t|);
      PartsJoin(t, 0, mid, |t|);
    }
  }

  /** Every cell of a part of whole characters belongs to one of them. */
  lemma AllKept(c: Cells, r: Cells, lo: int, hi: int)
    requires Part(c, lo, hi) && Opens(c, lo) && Closes(c, lo, hi) && KeepsWhole(c, r, lo, hi)
    ensures forall i :: lo <= i < hi ==> r[i] == c[i]
  {
    forall i | lo <= i < hi
      ensures r[i] == c[i]
    {
      var b := RunStart(c, i);
      assert b >= lo && Follows(c, b, hi);
    }
  }

  lemma {:induction false} TileAt(ch: Char, n: nat, k: nat, j: nat)
    requires IsBase(ch) && k < n && j < ch.width
    ensures k * ch.width + j < n * ch.width && Tiles(ch, n)[k * ch.width + j] == CellOf(ch, j)
  {
    assert |Tiles(ch, n - 1)| == (n - 1) * ch.width;
    if k < n - 1 {
      TileAt(ch, n - 1, k, j);
    }
  }

  /** Whole characters laid over a row of whole characters. */
  ghost predicate Laid(w: Cells, start: int, end: int) {
    && 0 <= start <= end <= |w|
    && Sane(w) && Part(w, 0, start) && Part(w, start, end) && Part(w, end, |w|)
    && Opens(w, 0) && Closes(w, start, end) && Closes(w, end, |w|)
  }

  lemma OverlayIsLaid(p: Cells, start: nat, m: Cells)
    requires Intact(p) && Intact(m) && start + |m| <= |p| && m != []
    ensures Laid(p[..start] + m + p[start + |m|..], start, start + |m|)
    ensures Opens(p[..start] + m + p[start + |m|..], start)
  {
    LaidBetween(p, start, m, start + |m|, p[..start] + m + p[start + |m|..]);
  }

  lemma LaidBetween(p: Cells, start: nat, m: Cells, end: int, w: Cells)
    requires Intact(p) && Intact(m) && start + |m| == end <= |p| && m != [] && w == p[..start] + m + p[end..]
    ensures Laid(w, start, end) && Opens(w, start)
  {
    IntactIsSane(p);
    IntactIsSane(m);
    IntactParts(p, 0, start);
    IntactParts(p, end, |p|);
    PartMoves(p, 0, start, w, 0);
    PartMoves(m, 0, |m|, w, start);
    PartMoves(p, end, |p|, w, 0);
  }

  /** The row while the characters are in place and nothing has been repaired. */
  lemma WrittenIsLaid(c: Cells, blank: Char, start: nat, ch: Char, n: nat)
    requires Intact(c) && IsBase(ch) && !IsContinuation(blank) && blank.width == 1 && n > 0
    ensures Laid(Written(c, blank, start, ch, n), start, start + n * ch.width)
    ensures Opens(Written(c, blank, start, ch, n), start)
  {
    var t := Tiles(ch, n);
    PaddedIntact(c, blank, start + |t|);
    TilesIntact(ch, n);
    TileAt(ch, n, 0, 0);
    OverlayIsLaid(Padded(c, blank, start + |t|), start, t);
  }

  lemma PartAlike(w: Cells, r: Cells, lo: int, hi: int)
    requires Part(w, lo, hi) && |r| == |w| && forall i :: lo <= i < hi ==> SameShape(r[i], w[i])
    ensures Part(r, lo, hi) && (Closes(w, lo, hi) ==> Closes(r, lo, hi))
  {
    forall i | lo <= i < hi && !IsContinuation(r[i])
      ensures Follows(r, i, hi)
    {
      assert Follows(w, i, hi);
    }
  }

  lemma LaidAlike(w: Cells, r: Cells, start: int, end: int)
    requires Laid(w, start, end) && |r| == |w| && forall i :: 0 <= i < |w| ==> SameShape(r[i], w[i])
    ensures Laid(r, start, end)
  {
    PartAlike(w, r, 0, start);
    PartAlike(w, r, start, end);
    PartAlike(w, r, end, |w|);
    assert Sane(r) by {
      assert forall i :: 0 <= i < |w| ==> SameShape(r[i], w[i]);
    }
  }

  lemma WrittenAt(c: Cells, blank: Char, start: nat, ch: Char, n: nat, k: nat, j: nat)
    requires IsBase(ch) && k < n && j < ch.width
    ensures 0 <= k * ch.width + j < n * ch.width
    ensures Written(c, blank, start, ch, n)[start + (k * ch.width + j)] == CellOf(ch, j)
  {
    TileAt(ch, n, k, j);
  }

  function WithCursor(ch: Char): Char {
    ch.(attributes := ch.attributes.(cursor := true))
  }

  /** The cells of a row on which the cursor is shown at `at`. */
  ghost predicate CursorOn(w: Cells, r: Cells, at: nat, ch: Char)
    requires IsBase(ch)
  {
    && at < |w| == |r|
    && (forall i :: 0 <= i < at || at + ch.width <= i < |r| ==> r[i] == w[i])
    && SameShape(r[at], ch)
    && (forall i :: at < i < at + ch.width && i < |r| ==> IsContinuation(r[i]))
  }

  lemma ShownHasCursor(c: Cells, blank: Char, start: nat, ch: Char, n: nat, cursor: int)
    requires IsBase(ch) && start <= cursor < start + n * ch.width
    ensures CursorOn(Written(c, blank, start, ch, n), Shown(c, blank, start, ch, n, cursor), cursor, ch)
  {
    var w, r := Written(c, blank, start, ch, n), Shown(c, blank, start, ch, n, cursor);
    var t := Tiles(WithCursor(ch), 1);
    assert t == [] + seq(ch.width, j => CellOf(WithCursor(ch), j));
    forall i | cursor < i < cursor + ch.width && i < |r|
      ensures IsContinuation(r[i])
    {
      assert r[i] == t[i - cursor];
    }
  }

  /** The written characters with the cursor on the first column of one of them. */
  lemma CursorOnBase(w: Cells, r: Cells, start: int, end: int, at: nat, ch: Char)
    requires IsBase(ch) && Laid(w, start, end) && CursorOn(w, r, at, ch)
    requires at + ch.width <= |w| && SameShape(w[at], ch)
    requires forall i :: at < i < at + ch.width ==> IsContinuation(w[i])
    ensures Laid(r, start, end)
  {
    LaidAlike(w, r, start, end);
  }

  /** If the row is laid out from whole characters, repairing both edges restores the row and loses
      none of the characters written. */
  lemma LaidIsRestored(w: Cells, start: int, end: int)
    requires Laid(w, start, end) && start < end && Opens(w, start)
    ensures Intact(BrokenTwice(w, start, end)) && Repaired(w, BrokenTwice(w, start, end), start, end)
  {
    BreaksMend(w, start, end);
  }

  // The visible cursor on a column of a character that is not its first.

  /** Mending the right side of an edge clears a character cut short by the cursor. */
  lemma RightCut(d: Cells, start: int, at: int)
    requires Sane(d) && Part(d, 0, start) && Closes(d, 0, start) && Opens(d, 0) && start < at < |d|
    requires !IsContinuation(d[start]) && start + d[start].width > at && !IsContinuation(d[at])
    requires forall i :: start < i < at ==> IsContinuation(d[i])
    ensures var e := BreakRight(d, start);
      Part(e, 0, at) && Closes(e, 0, at) && Opens(e, 0) && forall i :: at <= i < |d| ==> e[i] == d[i]
  {
    assert RunEnd(d, start) == at - 1;
    var e := Cleared(d, start, at - 1);
    assert BreakRight(d, start) == e;
    MendedSame(d, e, 0, start);
    assert Part(e, start, at) && Closes(e, start, at) by {
      forall i | start <= i < at
        ensures Follows(e, i, at)
      {
      }
    }
    PartsJoin(e, 0, start, at);
  }

  /** ... so the first break leaves whole characters before the cursor. */
  lemma FirstCut(r: Cells, start: int, at: int)
    requires Sane(r) && Part(r, 0, start) && Opens(r, 0) && start < at < |r|
    requires !IsContinuation(r[start]) && start + r[start].width > at && !IsContinuation(r[at])
    requires forall i :: start < i < at ==> IsContinuation(r[i])
    ensures var d := ForceBreak(r, start);
      Part(d, 0, at) && Closes(d, 0, at) && Opens(d, 0) && forall i :: at <= i < |r| ==> d[i] == r[i]
  {
    if 0 < start {
      LeftMended(r, 0, start);
    }
    RightCut(BreakLeft(r, start), start, at);
  }

  /** If only one character was written then the cursor's own continuation cells are cleared. */
  lemma OneCharacter(r: Cells, start: int, at: int, end: int)
    requires Sane(r) && Part(r, 0, start) && Opens(r, 0) && start < at < end <= |r|
    requires !IsContinuation(r[start]) && start + r[start].width == end && !IsContinuation(r[at])
    requires forall i :: start < i < at ==> IsContinuation(r[i])
    requires Part(r, at, end) && Part(r, end, |r|) && Closes(r, end, |r|)
    ensures Intact(BrokenTwice(r, start, end))
  {
    var d := ForceBreak(r, start);
    FirstCut(r, start, at);
    PartAlike(r, d, at, end);
    PartAlike(r, d, end, |r|);
    SecondBreak(d, at, end);
  }

  /** If two characters were written then what is left of the second is cleared. */
  lemma TwoCharacters(r: Cells, start: int, at: int, end: int)
    requires Sane(r) && Part(r, 0, start) && Opens(r, 0) && start < at < end <= |r|
    requires !IsContinuation(r[start]) && start + r[start].width > at && !IsContinuation(r[at])
    requires at + r[at].width < end
    requires forall i :: start < i < end && i != at ==> IsContinuation(r[i])
    requires Part(r, end, |r|) && Closes(r, end, |r|)
    ensures Intact(BrokenTwice(r, start, end))
  {
    var d := ForceBreak(r, start);
    FirstCut(r, start, at);
    StraysCleared(r, d, at, end);
    SecondRight(BreakLeft(d, end), at, end);
  }

  lemma StraysCleared(r: Cells, d: Cells, at: int, end: int)
    requires Sane(d) && |d| == |r| && 0 < at < end <= |r| && !IsContinuation(r[at]) && at + r[at].width < end
    requires Part(d, 0, at) && Closes(d, 0, at) && Opens(d, 0) && forall i :: at <= i < |r| ==> d[i] == r[i]
    requires forall i :: at < i < end ==> IsContinuation(r[i])
    requires Part(r, end, |r|) && Closes(r, end, |r|)
    ensures var e := BreakLeft(d, end);
      && Part(e, 0, at) && Part(e, at, end) && Part(e, 0, end) && Part(e, end, |r|)
      && Opens(e, 0) && Closes(e, 0, end) && Closes(e, end, |r|)
  {
    var rest := at + r[at].width;
    assert RunStart(d, end - 1) == at;
    var e := Cleared(d, rest, end - 1);
    assert BreakLeft(d, end) == e;
    PartAlike(d, e, 0, at);
    PartAlike(r, e, end, |r|);
    assert Part(e, at, end) && Closes(e, at, end) by {
      forall i | at <= i < end && !IsContinuation(e[i])
        ensures Follows(e, i, end) && i + e[i].width <= end
      {
      }
    }
    PartsJoin(e, 0, at, end);
  }

  lemma LeftChanges(c: Cells, edge: int, from: int)
    requires Sane(c) && 0 <= from < edge <= |c| && !IsContinuation(c[from])
    ensures OnlyClears(c, BreakLeft(c, edge))
    ensures forall i :: 0 <= i < from || edge <= i < |c| ==> BreakLeft(c, edge)[i] == c[i]
  {
  }

  lemma RightChanges(c: Cells, edge: int)
    requires Sane(c) && 0 <= edge <= |c|
    ensures OnlyClears(c, BreakRight(c, edge))
    ensures forall i :: 0 <= i < edge ==> BreakRight(c, edge)[i] == c[i]
  {
  }

  /** A later character cut short by the cursor stays cut short. */
  lemma LaterCharacter(r: Cells, start: int, second: int, b: int, at: int, end: int)
    requires Sane(r) && Part(r, 0, start) && Opens(r, 0) && 0 <= start < second <= b < at < end <= |r|
    requires !IsContinuation(r[start]) && start + r[start].width == second && !IsContinuation(r[second])
    requires forall i :: start < i < second ==> IsContinuation(r[i])
    requires !IsContinuation(r[b]) && b + r[b].width > at && !IsContinuation(r[at])
    ensures !Intact(BrokenTwice(r, start, end))
  {
    var l := BreakLeft(r, start);
    if 0 < start {
      LeftMended(r, 0, start);
    }
    assert RunEnd(l, start) == second - 1;
    assert BreakRight(l, start) == l;
    LeftChanges(l, end, at);
    var e := BreakLeft(l, end);
    RightChanges(e, end);
    var f := BreakRight(e, end);
    assert f[b] == r[b] && !IsContinuation(f[at]);
    assert !Follows(f, b, |f|);
  }

  /** What is left of the second of three or more characters stays behind the cursor. */
  lemma ThirdCharacter(r: Cells, start: int, at: int, third: int, end: int)
    requires Sane(r) && Part(r, 0, start) && Opens(r, 0) && 0 <= start < at < third < end <= |r|
    requires !IsContinuation(r[start]) && start + r[start].width > at && !IsContinuation(r[at])
    requires forall i :: start < i < at ==> IsContinuation(r[i])
    requires at + r[at].width < third && IsContinuation(r[at + r[at].width]) && !IsContinuation(r[third])
    ensures !Intact(BrokenTwice(r, start, end))
  {
    var d := ForceBreak(r, start);
    FirstCut(r, start, at);
    StraysStay(d, at, third, end);
  }

  lemma StraysStay(d: Cells, at: int, third: int, end: int)
    requires Sane(d) && 0 <= at < third < end <= |d| && !IsContinuation(d[at])
    requires at + d[at].width < third && IsContinuation(d[at + d[at].width]) && !IsContinuation(d[third])
    ensures !Intact(ForceBreak(d, end))
  {
    LeftChanges(d, end, third);
    var e := BreakLeft(d, end);
    RightChanges(e, end);
    var f := BreakRight(e, end);
    assert f[at] == d[at] && f[at + d[at].width] == d[at + d[at].width];
    assert !Follows(f, at, |f|);
  }

  // The exact condition for the row to consist of whole characters.

  /** What the cursor leaves of the row before the written range and after it. */
  lemma CursorAround(w: Cells, r: Cells, start: int, end: int, at: nat, ch: Char)
    requires IsBase(ch) && Laid(w, start, end) && CursorOn(w, r, at, ch) && start < at < end
    ensures Sane(r) && Part(r, 0, start) && Opens(r, 0) && Part(r, end, |r|) && Closes(r, end, |r|)
  {
    PartMoves(w, 0, start, r, 0);
    CursorIsSane(w, r, at, ch);
    forall i | end <= i < |r| && !IsContinuation(r[i])
      ensures Follows(r, i, |r|) && i + r[i].width <= |r|
    {
      assert at + ch.width <= i && Follows(w, i, |w|);
    }
  }

  lemma CursorIsSane(w: Cells, r: Cells, at: nat, ch: Char)
    requires IsBase(ch) && Sane(w) && CursorOn(w, r, at, ch)
    ensures Sane(r)
  {
  }

  /** A whole character starts at b. */
  ghost predicate StartsAt(w: Cells, b: int, ch: Char)
    requires IsBase(ch)
  {
    0 <= b && b + ch.width <= |w| && w[b] == ch && forall i :: b < i < b + ch.width ==> IsContinuation(w[i])
  }

  /** Where the columns of the k-th character are. */
  lemma CharacterAt(c: Cells, blank: Char, start: nat, ch: Char, n: nat, k: nat, b: int)
    requires IsBase(ch) && k < n && b == start + k * ch.width
    ensures b + ch.width <= start + n * ch.width && StartsAt(Written(c, blank, start, ch, n), b, ch)
  {
    WrittenAt(c, blank, start, ch, n, k, 0);
    forall i | b <= i < b + ch.width
      ensures i < start + n * ch.width && Written(c, blank, start, ch, n)[i] == CellOf(ch, i - b)
    {
      WrittenAt(c, blank, start, ch, n, k, i - b);
    }
    assert b + ch.width - 1 < start + n * ch.width;
  }

  /** The cursor on another column of the only character. */
  lemma CursorInOnly(w: Cells, r: Cells, start: int, at: nat, end: int, ch: Char)
    requires IsBase(ch) && Laid(w, start, end) && CursorOn(w, r, at, ch) && StartsAt(w, start, ch)
    requires start < at < end == start + ch.width && Sane(r)
    ensures Intact(BrokenTwice(r, start, end))
  {
    CursorAround(w, r, start, end, at, ch);
    assert Part(r, at, end) by {
      assert Follows(r, at, end);
    }
    OneCharacter(r, start, at, end);
  }

  /** ... or of the first of two. */
  lemma CursorInFirst(w: Cells, r: Cells, start: int, at: nat, end: int, ch: Char)
    requires IsBase(ch) && Laid(w, start, end) && CursorOn(w, r, at, ch)
    requires StartsAt(w, start, ch) && StartsAt(w, start + ch.width, ch)
    requires start < at < start + ch.width && end == start + 2 * ch.width && Sane(r)
    ensures Intact(BrokenTwice(r, start, end))
  {
    CursorAround(w, r, start, end, at, ch);
    TwoCharacters(r, start, at, end);
  }

  /** ... or of the first of more. */
  lemma CursorInFirstOfThree(w: Cells, r: Cells, start: int, at: nat, end: int, ch: Char)
    requires IsBase(ch) && Laid(w, start, end) && CursorOn(w, r, at, ch)
    requires StartsAt(w, start, ch) && StartsAt(w, start + ch.width, ch) && StartsAt(w, start + 2 * ch.width, ch)
    requires start < at < start + ch.width && start + 2 * ch.width < end && Sane(r)
    ensures !Intact(BrokenTwice(r, start, end))
  {
    CursorAround(w, r, start, end, at, ch);
    ThirdCharacter(r, start, at, start + 2 * ch.width, end);
  }

  /** ... or of one of the later ones. */
  lemma CursorInLater(w: Cells, r: Cells, start: int, b: int, at: nat, end: int, ch: Char)
    requires IsBase(ch) && Laid(w, start, end) && CursorOn(w, r, at, ch)
    requires StartsAt(w, start, ch) && StartsAt(w, start + ch.width, ch) && StartsAt(w, b, ch)
    requires start + ch.width <= b < at < b + ch.width <= end && Sane(r)
    ensures !Intact(BrokenTwice(r, start, end))
  {
    CursorAround(w, r, start, end, at, ch);
    LaterCharacter(r, start, start + ch.width, b, at, end);
  }

  lemma ShownIsSane(c: Cells, blank: Char, start: nat, ch: Char, n: nat, cursor: int)
    requires Intact(c) && IsBase(ch) && !IsContinuation(blank) && blank.width == 1 && n > 0
    ensures Sane(Shown(c, blank, start, ch, n, cursor))
  {
    WrittenIsLaid(c, blank, start, ch, n);
    if start <= cursor < start + n * ch.width {
      ShownHasCursor(c, blank, start, ch, n, cursor);
    }
  }

  /** n copies of a character have been written from `start` to `end`, one of them at b. */
  ghost predicate Span(w: Cells, start: int, end: int, ch: Char, n: nat, b: int)
    requires IsBase(ch)
  {
    && n > 0 && Laid(w, start, end) && Opens(w, start) && StartsAt(w, start, ch) && StartsAt(w, b, ch)
    && b + ch.width <= end
    && (b == start || (start + ch.width <= b && n > 1))
    && (n == 1 ==> end == start + ch.width)
    && (n > 1 ==> StartsAt(w, start + ch.width, ch))
    && (n == 2 ==> end == start + 2 * ch.width)
    && (n > 2 ==> StartsAt(w, start + 2 * ch.width, ch) && start + 2 * ch.width < end)
  }

  lemma WrittenIsSpan(c: Cells, blank: Char, start: nat, ch: Char, n: nat, k: nat, b: int, end: int)
    requires Intact(c) && IsBase(ch) && !IsContinuation(blank) && blank.width == 1
    requires k < n && b == start + k * ch.width && end == start + n * ch.width
    ensures Span(Written(c, blank, start, ch, n), start, end, ch, n, b) && (b == start <==> k == 0)
  {
    var w := ch.width;
    WrittenIsLaid(c, blank, start, ch, n);
    SpanEnds(start, w, n, k, b, end);
    CharacterAt(c, blank, start, ch, n, 0, start);
    CharacterAt(c, blank, start, ch, n, k, b);
    if n > 1 {
      CharacterAt(c, blank, start, ch, n, 1, start + w);
    }
    if n > 2 {
      CharacterAt(c, blank, start, ch, n, 2, start + 2 * w);
    }
  }

  lemma SpanEnds(start: int, w: nat, n: nat, k: nat, b: int, end: int)
    requires w > 0 && k < n && b == start + k * w && end == start + n * w
    ensures b + w <= end && (if k == 0 then b == start else start + w <= b)
    ensures (n == 1 ==> end == start + w) && (n == 2 ==> end == start + 2 * w) && (n > 2 ==> start + 2 * w < end)
  {
    Multiples(k + 1, n, w);
    if k > 0 {
      Multiples(1, k, w);
    }
    if n > 2 {
      Multiples(3, n, w);
    }
  }

  lemma CursorCases(w: Cells, r: Cells, start: int, end: int, ch: Char, n: nat, b: int, at: nat)
    requires IsBase(ch) && Span(w, start, end, ch, n, b) && CursorOn(w, r, at, ch) && b <= at < b + ch.width && Sane(r)
    ensures Intact(BrokenTwice(r, start, end)) <==> at == b || (b == start && n <= 2)
  {
    if at == b {
      CursorOnBase(w, r, start, end, at, ch);
      LaidIsRestored(r, start, end);
    } else if b > start {
      CursorInLater(w, r, start, b, at, end, ch);
    } else if n > 2 {
      CursorInFirstOfThree(w, r, start, at, end, ch);
    } else if n == 2 {
      CursorInFirst(w, r, start, at, end, ch);
    } else {
      CursorInOnly(w, r, start, at, end, ch);
    }
  }

  lemma CursorInSpan(c: Cells, blank: Char, start: nat, ch: Char, n: nat, at: nat, r: Cells, end: int, d: int)
    requires Intact(c) && IsBase(ch) && !IsContinuation(blank) && blank.width == 1
    requires r == Shown(c, blank, start, ch, n, at) && end == start + n * ch.width
    requires start <= at < end <= |r| && Sane(r)
    requires d == at - start
    ensures Intact(BrokenTwice(r, start, end)) <==> d % ch.width == 0 || (d < ch.width && n <= 2)
  {
    var k, j := d / ch.width, d % ch.width;
    CursorColumn(d, ch.width, n, k, j);
    var b := start + k * ch.width;
    WrittenIsSpan(c, blank, start, ch, n, k, b, end);
    ShownHasCursor(c, blank, start, ch, n, at);
    CursorCases(Written(c, blank, start, ch, n), r, start, end, ch, n, b, at);
  }

  /** The row after guac_terminal_set_columns, where `end` is the column behind the last one written. */
  function SetRow(c: Cells, blank: Char, start: nat, end: int, ch: Char, n: nat, cursor: int): (r: Cells)
    requires IsBase(ch) && end == start + n * ch.width
  {
    BrokenTwice(Shown(c, blank, start, ch, n, cursor), start, end)
  }

  /** Whether the visible cursor, `at` columns behind the start of n characters that take `width`
      columns each, leaves them whole: it is not on a later column of any but the first of two. */
  predicate CursorFits(at: int, width: int, n: int)
    requires width > 0
  {
    !(0 <= at < n * width) || at % width == 0 || (at < width && n <= 2)
  }

  lemma SetRowIs(c: Cells, blank: Char, start: nat, ch: Char, n: nat, cursor: int, r: Cells, end: int)
    requires Intact(c) && IsBase(ch) && !IsContinuation(blank) && blank.width == 1 && n > 0
    requires r == Shown(c, blank, start, ch, n, cursor) && end == start + n * ch.width
    ensures end <= |r| && Sane(r) && SetRow(c, blank, start, end, ch, n, cursor) == BrokenTwice(r, start, end)
  {
    ShownIsSane(c, blank, start, ch, n, cursor);
  }

  lemma CursorWithin(c: Cells, blank: Char, start: nat, ch: Char, n: nat, cursor: int, r: Cells, end: int, d: int)
    requires Intact(c) && IsBase(ch) && !IsContinuation(blank) && blank.width == 1 && n > 0
    requires start <= cursor < end == start + n * ch.width && d == cursor - start
    requires r == Shown(c, blank, start, ch, n, cursor)
    ensures Intact(SetRow(c, blank, start, end, ch, n, cursor)) <==> CursorFits(d, ch.width, n)
  {
    SetRowIs(c, blank, start, ch, n, cursor, r, end);
    CursorInSpan(c, blank, start, ch, n, cursor, r, end, d);
    assert CursorFits(d, ch.width, n) <==> d % ch.width == 0 || (d < ch.width && n <= 2);
  }

  lemma NoCursor(c: Cells, blank: Char, start: nat, ch: Char, n: nat, cursor: int, r: Cells, end: int, d: int)
    requires Intact(c) && IsBase(ch) && !IsContinuation(blank) && blank.width == 1 && n > 0
    requires end == start + n * ch.width && !(start <= cursor < end)
    requires d == cursor - start && r == Shown(c, blank, start, ch, n, cursor)
    ensures Intact(SetRow(c, blank, start, end, ch, n, cursor)) && CursorFits(d, ch.width, n)
  {
    assert CursorFits(d, ch.width, n);
    SetRowIs(c, blank, start, ch, n, cursor, r, end);
    SpanIsLaid(c, blank, start, ch, n, cursor, r, end, d);
    LaidIsRestored(r, start, end);
  }

  /** Writing no character at all extends the row and breaks the character at that column. */
  lemma SetNothing(c: Cells, blank: Char, start: nat, ch: Char, cursor: int)
    requires Intact(c) && IsBase(ch) && !IsContinuation(blank) && blank.width == 1
    ensures var p, r := Padded(c, blank, start), SetRow(c, blank, start, start, ch, 0, cursor);
      && Shown(c, blank, start, ch, 0, cursor) == p && r == BrokenTwice(p, start, start)
      && Intact(r) && Repaired(p, r, start, start)
  {
    var p := Padded(c, blank, start);
    assert p[..start] + [] + p[start..] == p;
    PaddedIntact(c, blank, start);
    BreaksOnlyClear(p, start, start);
    IntactBreak(p, start);
    var d := ForceBreak(p, start);
    IntactBreak(d, start);
    MendedAgain(p, d, ForceBreak(d, start), 0, start);
    MendedAgain(p, d, ForceBreak(d, start), start, |p|);
  }

  lemma NothingKept(c: Cells, blank: Char, start: nat, ch: Char, n: nat, cursor: int, r: Cells, end: int)
    requires Intact(c) && IsBase(ch) && !IsContinuation(blank) && blank.width == 1
    requires n == 0 && end == start + n * ch.width && r == Shown(c, blank, start, ch, n, cursor)
    ensures end == start && Intact(SetRow(c, blank, start, end, ch, n, cursor))
    ensures Repaired(r, SetRow(c, blank, start, end, ch, n, cursor), start, end)
  {
    SetNothing(c, blank, start, ch, cursor);
  }

  /** guac_terminal_set_columns keeps every character of the row whole exactly if the cursor fits. */
  lemma SetKeepsWholeIff(c: Cells, blank: Char, start: nat, end: int, ch: Char, n: nat, cursor: int, d: int)
    requires Intact(c) && IsBase(ch) && !IsContinuation(blank) && blank.width == 1
    requires end == start + n * ch.width && d == cursor - start
    ensures Intact(SetRow(c, blank, start, end, ch, n, cursor)) <==> CursorFits(d, ch.width, n)
  {
    var r := Shown(c, blank, start, ch, n, cursor);
    if n == 0 {
      NothingKept(c, blank, start, ch, n, cursor, r, end);
    } else if start <= cursor < end {
      CursorWithin(c, blank, start, ch, n, cursor, r, end, d);
    } else {
      NoCursor(c, blank, start, ch, n, cursor, r, end, d);
    }
  }

  lemma Multiples(a: int, b: int, w: nat)
    requires a <= b
    ensures a * w <= b * w
  {
  }

  lemma CursorColumn(d: nat, w: nat, n: nat, k: int, j: int)
    requires w > 0 && d < n * w && k == d / w && j == d % w
    ensures 0 <= k < n && 0 <= j < w && d == k * w + j && (k == 0 <==> d < w)
  {
    if k >= n {
      Multiples(n, k, w);
    }
  }

  /** With the cursor out of the way or on the first column of a character, all that was written
      stays as it was written, and so does every character beside it that was not cut. */
  lemma SetKeepsCells(c: Cells, blank: Char, start: nat, ch: Char, n: nat, cursor: int, r: Cells, end: int, d: int)
    requires Intact(c) && IsBase(ch) && !IsContinuation(blank) && blank.width == 1
    requires end == start + n * ch.width && r == Shown(c, blank, start, ch, n, cursor) && d == cursor - start
    requires !(start <= cursor < end) || d % ch.width == 0
    ensures Repaired(r, SetRow(c, blank, start, end, ch, n, cursor), start, end)
    ensures forall i :: start <= i < end ==> SetRow(c, blank, start, end, ch, n, cursor)[i] == r[i]
  {
    if n == 0 {
      NothingKept(c, blank, start, ch, n, cursor, r, end);
    } else {
      SomeKept(c, blank, start, ch, n, cursor, r, end, d);
    }
  }

  lemma SomeKept(c: Cells, blank: Char, start: nat, ch: Char, n: nat, cursor: int, r: Cells, end: int, d: int)
    requires Intact(c) && IsBase(ch) && !IsContinuation(blank) && blank.width == 1 && n > 0
    requires end == start + n * ch.width && r == Shown(c, blank, start, ch, n, cursor) && d == cursor - start
    requires !(start <= cursor < end) || d % ch.width == 0
    ensures Repaired(r, SetRow(c, blank, start, end, ch, n, cursor), start, end)
    ensures forall i :: start <= i < end ==> SetRow(c, blank, start, end, ch, n, cursor)[i] == r[i]
  {
    SetRowIs(c, blank, start, ch, n, cursor, r, end);
    SpanIsLaid(c, blank, start, ch, n, cursor, r, end, d);
    LaidIsKept(r, start, end);
  }

  lemma LaidIsKept(r: Cells, start: int, end: int)
    requires Laid(r, start, end) && start < end && Opens(r, start)
    ensures Repaired(r, BrokenTwice(r, start, end), start, end)
    ensures forall i :: start <= i < end ==> BrokenTwice(r, start, end)[i] == r[i]
  {
    BreaksMend(r, start, end);
    AllKept(r, BrokenTwice(r, start, end), start, end);
  }

  lemma SpanIsLaid(c: Cells, blank: Char, start: nat, ch: Char, n: nat, cursor: int, r: Cells, end: int, d: int)
    requires Intact(c) && IsBase(ch) && !IsContinuation(blank) && blank.width == 1 && n > 0
    requires end == start + n * ch.width && r == Shown(c, blank, start, ch, n, cursor) && d == cursor - start
    requires !(start <= cursor < end) || d % ch.width == 0
    ensures Laid(r, start, end) && Opens(r, start)
  {
    WrittenIsLaid(c, blank, start, ch, n);
    if start <= cursor < end {
      var k := d / ch.width;
      CursorColumn(d, ch.width, n, k, 0);
      WrittenIsSpan(c, blank, start, ch, n, k, cursor, end);
      ShownHasCursor(c, blank, start, ch, n, cursor);
      CursorOnBase(Written(c, blank, start, ch, n), r, start, end, cursor, ch);
    }
  }

  // Rows of characters of one column.

  lemma NothingOverlaid(c: Cells, blank: Char, start: int, end: int, ch: Char, n: nat, r: Cells)
    requires 0 <= start == end + 1 && IsBase(ch) && (n - 1) * ch.width <= end - start < n * ch.width
    requires r == Overlaid(Padded(c, blank, end + 1), start, Tiles(ch, n))
    ensures n == 0 && r == Padded(c, blank, start)
  {
    assert n > 0 ==> (n - 1) * ch.width >= 0;
  }

  /** n characters of w columns fill a range exactly, which is empty if there are none. */
  lemma CountedBy(n: nat, w: nat, last: int)
    requires w > 0 && last + 1 == n * w
    ensures (n - 1) * w <= last < n * w && (n == 0 <==> last == -1) && (n == 1 ==> last + 1 == w)
  {
    assert n * w == (n - 1) * w + w;
  }

  lemma OverlaidSingles(c: Cells, blank: Char, start: int, end: int, ch: Char)
    requires AllSingle(c) && IsSingle(blank) && IsSingle(ch) && 0 <= start <= end
    ensures var r := Overlaid(Padded(c, blank, end + 1), start, Tiles(ch, end - start + 1));
      AllSingle(r) && forall i :: 0 <= i < |r| ==>
                r[i] == if start <= i <= end then ch else if i < |c| then c[i] else blank
  {
    var n := end - start + 1;
    var t := Tiles(ch, n);
    forall j | 0 <= j < n
      ensures t[j] == ch
    {
      TileAt(ch, n, j, 0);
    }
  }

  lemma ClearedIsOverlaid(c: Cells, blank: Char, start: int, end: int)
    requires 0 <= start <= end < |c|
    ensures Overlaid(Padded(c, blank, end + 1), start, Tiles(Space(c[start]), end - start + 1))
        == Cleared(c, start, end)
  {
    var s, n := Space(c[start]), end - start + 1;
    var t := Tiles(s, n);
    forall j | 0 <= j < n
      ensures t[j] == s
    {
      TileAt(s, n, j, 0);
    }
    assert Overlaid(Padded(c, blank, end + 1), start, t) == Cleared(c, start, end);
  }

  lemma WrittenSingles(c: Cells, blank: Char, start: int, end: int, ch: Char, n: nat)
    requires AllSingle(c) && IsSingle(blank) && IsSingle(ch) && 0 <= start <= end + 1 && n == end - start + 1
    ensures var w := Written(c, blank, start, ch, n);
      && AllSingle(w) && |w| == |Padded(c, blank, end + 1)|
      && forall i :: 0 <= i < |w| ==> w[i] == if start <= i <= end then ch else if i < |c| then c[i] else blank
  {
    WrittenIsOverlaid(c, blank, start, ch, n, end + 1);
    if start <= end {
      OverlaidSingles(c, blank, start, end, ch);
    }
  }

  lemma ShownSingles(c: Cells, blank: Char, start: int, end: int, ch: Char, n: nat, cursor: int)
    requires AllSingle(c) && IsSingle(blank) && IsSingle(ch) && 0 <= start <= end + 1 && n == end - start + 1
    ensures var r := Shown(c, blank, start, ch, n, cursor);
      && AllSingle(r) && |r| == |Padded(c, blank, end + 1)|
      && forall i :: 0 <= i < |r| ==>
           r[i] == if start <= i <= end then if i == cursor then WithCursor(ch) else ch
                   else if i < |c| then c[i] else blank
  {
    var w := Written(c, blank, start, ch, n);
    WrittenSingles(c, blank, start, end, ch, n);
    if start <= cursor <= end {
      assert Padded(w, blank, cursor + 1) == w;
      OverlaidSingles(w, blank, cursor, cursor, WithCursor(ch));
    }
  }

  /** What guac_terminal_set_columns makes of a row if all characters take one column. */
  lemma SetSingles(c: Cells, blank: Char, start: int, end: int, ch: Char, n: nat, edge: int, cursor: int)
    requires AllSingle(c) && IsSingle(blank) && IsSingle(ch)
    requires 0 <= start <= end + 1 && n == end - start + 1 && edge == end + 1
    ensures edge == start + n * ch.width
    ensures SetRow(c, blank, start, edge, ch, n, cursor) == Shown(c, blank, start, ch, n, cursor)
  {
    ShownSingles(c, blank, start, end, ch, n, cursor);
    BreaksOfSingles(Shown(c, blank, start, ch, n, cursor), start, edge);
  }
}
