/** Whether copying rows or columns keeps the screen in step with the buffer, as guac_terminal_scroll_up,
    guac_terminal_scroll_down and guac_terminal_copy_columns of src/terminal/terminal.c mean it to. What is
    on the screen is copied by the display, which fits the range into the screen. Rows are copied by the
    buffer, which fits them into nothing, and so are columns, which it fits into their row. */
module Scrolls {
  import opened Grids
  import opened TerminalTypes
  import opened WideChars
  import opened RowWrites
  import opened Displays
  import opened ColumnCopies
  import opened Buffers
  import opened Views

  /** Where line t of h lines comes from, or column t of h columns, once the range has been fitted. */
  function FittedOrigin(t: int, lo: int, hi: int, offset: int, h: int): int {
    Origin(t, Clamp(lo, offset, h), Clamp(hi, offset, h), offset)
  }

  lemma FittedInside(t: int, lo: int, hi: int, offset: int, h: int)
    requires 0 <= t < h && CanMove(lo, hi, offset, h)
    ensures 0 <= FittedOrigin(t, lo, hi, offset, h) < h
  {
    ClampExact(lo, hi, offset, h);
  }

  /** An image of which lines lo to hi have been copied, or what is left of that range once it has been fitted. */
  ghost function CopiedLines(was: Grid<Look>, lo: int, hi: int, offset: int): (now: Grid<Look>)
    requires CanMove(lo, hi, offset, |was|)
    ensures |now| == |was|
  {
    seq(|was|, t requires 0 <= t < |was| =>
      assert 0 <= FittedOrigin(t, lo, hi, offset, |was|) < |was| by { FittedInside(t, lo, hi, offset, |was|); }
      was[FittedOrigin(t, lo, hi, offset, |was|)])
  }

  lemma LinesMovedTo(was: Grid<Look>, now: Grid<Look>, h: nat, w: nat, lo: int, hi: int, down: int)
    requires 0 < h && CanMove(lo, hi, down, h)
    requires Moved(was, now, h, w, Clamp(lo, down, h), Clamp(hi, down, h), 0, w - 1, down, 0)
    ensures now == CopiedLines(was, lo, hi, down)
  {
    forall t | 0 <= t < h
      ensures now[t] == CopiedLines(was, lo, hi, down)[t]
    {
      LineMovedTo(was, now, h, w, lo, hi, down, t);
    }
  }

  lemma LineMovedTo(was: Grid<Look>, now: Grid<Look>, h: nat, w: nat, lo: int, hi: int, down: int, t: int)
    requires CanMove(lo, hi, down, h) && 0 <= t < h
    requires Moved(was, now, h, w, Clamp(lo, down, h), Clamp(hi, down, h), 0, w - 1, down, 0)
    ensures var i := FittedOrigin(t, lo, hi, down, h); 0 <= i < h && now[t] == was[i]
  {
    FittedInside(t, lo, hi, down, h);
    var i := FittedOrigin(t, lo, hi, down, h);
    forall c | 0 <= c < w
      ensures now[t][c] == was[i][c]
    {
      if Clamp(lo, down, h) <= t - down <= Clamp(hi, down, h) {
        assert now[i + down][c + 0] == was[i][c];
      }
    }
  }

  lemma SameLines(was: Grid<Look>, lo: int, hi: int, hi': int, offset: int)
    requires CanMove(lo, hi, offset, |was|) && Clamp(hi, offset, |was|) == Clamp(hi', offset, |was|)
    ensures CopiedLines(was, lo, hi, offset) == CopiedLines(was, lo, hi', offset)
  {
  }

  /** Once lines and rows lo to hi have been copied, each as it is done there, all lines but those from
      `first` to `last`, which are to be cleared, show what is then in the buffer. */
  ghost predicate StillShows(palette: Palette, blank: Char, image: Grid<Look>, ring: seq<Cells>, lo: int, hi: int,
                             offset: int, first: int, last: int) {
    forall t {:trigger Origin(t, lo, hi, offset)} :: 0 <= t < |image| && !(first <= t <= last) ==>
      LineShows(palette, blank, image, ring, FittedOrigin(t, lo, hi, offset, |image|), Origin(t, lo, hi, offset))
  }

  ghost predicate LineShows(palette: Palette, blank: Char, image: Grid<Look>, ring: seq<Cells>, line: int, row: int) {
    0 <= line < |image| && 0 <= row < |ring| && RowShows(palette, blank, image[line], ring[row])
  }

  /** Each line that stays comes from where its row comes from. */
  ghost predicate InStep(h: int, lo: int, hi: int, offset: int, first: int, last: int) {
    forall t {:trigger Origin(t, lo, hi, offset)} :: 0 <= t < h && !(first <= t <= last) ==>
      FittedOrigin(t, lo, hi, offset, h) == Origin(t, lo, hi, offset)
  }

  lemma InStepShows(palette: Palette, blank: Char, image: Grid<Look>, ring: seq<Cells>, lo: int, hi: int, offset: int,
                    first: int, last: int)
    requires ImageShows(palette, blank, image, ring, 0, |image|) && CanMove(lo, hi, offset, |image|)
    requires InStep(|image|, lo, hi, offset, first, last)
    ensures StillShows(palette, blank, image, ring, lo, hi, offset, first, last)
  {
    forall t | 0 <= t < |image| && !(first <= t <= last)
      ensures LineShows(palette, blank, image, ring, FittedOrigin(t, lo, hi, offset, |image|),
                        Origin(t, lo, hi, offset))
    {
      FittedInside(t, lo, hi, offset, |image|);
      assert RowShows(palette, blank, image[Origin(t, lo, hi, offset)], ring[Origin(t, lo, hi, offset)]);
    }
  }

  /** Each of the first h rows is among the first `count` or else is to be cleared. */
  predicate RestKnown(h: int, count: int, first: int, last: int) {
    count >= h || (first <= count && h <= last + 1)
  }

  /** What the screen shows in the end, once lines and rows have been copied and some of them cleared. */
  lemma ViewAfter(palette: Palette, blank: Char, was: Grid<Look>, copied: Grid<Look>, now: Grid<Look>,
                  before: seq<Cells>, between: seq<Cells>, after: seq<Cells>, count: int, lo: int, hi: int,
                  offset: int, first: int, last: int, ch: Char, w: nat)
    requires |was| == |now| <= |before| && CanMove(lo, hi, offset, |was|)
    requires copied == CopiedLines(was, lo, hi, offset)
    requires Relocated(before, between, count, lo, hi, offset) && RowsWiped(between, after, first, last, ch, w)
    requires RestKnown(|was|, count, first, last)
    requires forall t :: 0 <= t < |was| && !(first <= t <= last) ==> now[t] == copied[t]
    requires ImageShows(palette, blank, now, after, first, last + 1)
    ensures ImageShows(palette, blank, now, after, 0, |now|)
       <==> StillShows(palette, blank, was, before, lo, hi, offset, first, last)
  {
    forall t | 0 <= t < |was| && !(first <= t <= last)
      ensures RowShows(palette, blank, now[t], after[t])
         <==> LineShows(palette, blank, was, before, FittedOrigin(t, lo, hi, offset, |was|), Origin(t, lo, hi, offset))
    {
      FittedInside(t, lo, hi, offset, |was|);
      assert now[t] == copied[t];
      assert after[t] == between[t];
    }
    if ImageShows(palette, blank, now, after, 0, |now|) {
      forall t | 0 <= t < |was| && !(first <= t <= last)
        ensures LineShows(palette, blank, was, before, FittedOrigin(t, lo, hi, offset, |was|),
                          Origin(t, lo, hi, offset))
      {
        assert RowShows(palette, blank, now[t], after[t]);
      }
    }
    if StillShows(palette, blank, was, before, lo, hi, offset, first, last) {
      forall t | 0 <= t < |now|
        ensures RowShows(palette, blank, now[t], after[t])
      {
        var k := Origin(t, lo, hi, offset);
      }
    }
  }

  /** The first `count` rows of the ring once rows lo to hi have been copied, and then some cleared. */
  ghost predicate Scrolled(was: seq<Cells>, now: seq<Cells>, count: int, lo: int, hi: int, offset: int, first: int,
                           last: int, ch: Char, width: int) {
    && count <= |now| == |was|
    && (forall k {:trigger now[k]} :: 0 <= k < |now| && first <= k <= last ==> Wiped(now[k], ch, width))
    && forall k {:trigger now[k]} :: 0 <= k < count && !(first <= k <= last) ==>
         0 <= Origin(k, lo, hi, offset) < |was| && now[k] == was[Origin(k, lo, hi, offset)]
  }

  lemma ScrolledRows(was: seq<Cells>, between: seq<Cells>, now: seq<Cells>, count: int, lo: int, hi: int, offset: int,
                     first: int, last: int, ch: Char, width: int)
    requires Relocated(was, between, count, lo, hi, offset) && RowsWiped(between, now, first, last, ch, width)
    ensures Scrolled(was, now, count, lo, hi, offset, first, last, ch, width)
  {
    forall k | 0 <= k < count && !(first <= k <= last)
      ensures 0 <= Origin(k, lo, hi, offset) < |was| && now[k] == was[Origin(k, lo, hi, offset)]
    {
      assert now[k] == between[k];
    }
  }

  lemma CopiedDisplayable(blank: Char, was: seq<Cells>, now: seq<Cells>, lo: int, hi: int, offset: int, width: int)
    requires RowsCopied(was, now, lo, hi, offset) && RowsDisplayable(blank, was, width)
    ensures RowsDisplayable(blank, now, width)
  {
    forall k | 0 <= k < |now|
      ensures Displayable(blank, now[k], width)
    {
      var row := now[k];
      assert row == was[Origin(k, lo, hi, offset)];
    }
  }

  lemma RingAdvanced(was: seq<Cells>, now: seq<Cells>, amount: int)
    requires |now| == |was| && 0 < amount <= |was|
    requires forall d {:trigger now[d]} :: 0 <= d < |was| && 0 <= d + amount < |was| ==> now[d] == was[d + amount]
    ensures Relocated(was, now, |was| - amount, amount, |was| - 1, -amount)
  {
    forall t | 0 <= t < |was| - amount
      ensures now[t] == was[Origin(t, amount, |was| - 1, -amount)]
    {
    }
  }

  /** An image of which line k shows the character in its first column, and nothing else is visible. */
  ghost function OneVisible(palette: Palette, blank: Char, ch: Char, h: nat, w: nat, k: int): (image: Grid<Look>)
    ensures IsGrid(image, h, w)
  {
    seq(h, d => seq(w, c => if d == k && c == 0 then Show(palette, ch) else Show(palette, blank)))
  }

  /** A row comes from elsewhere than its line: then it shows, if that is the only one with a character. */
  lemma OutOfStep(palette: Palette, blank: Char, ch: Char, h: nat, w: nat, n: nat, lo: int, hi: int, offset: int,
                  first: int, last: int, t: int)
    returns (image: Grid<Look>, ring: seq<Cells>)
    requires 0 < w && h <= n && CanMove(lo, hi, offset, h) && IsSingle(ch)
    requires HasGlyph(ch.value) && !HasGlyph(blank.value)
    requires 0 <= t < h && !(first <= t <= last) && 0 <= Origin(t, lo, hi, offset) < n
    requires FittedOrigin(t, lo, hi, offset, h) != Origin(t, lo, hi, offset)
    ensures IsGrid(image, h, w) && |ring| == n && RowsDisplayable(blank, ring, w)
    ensures ImageShows(palette, blank, image, ring, 0, h)
    ensures !StillShows(palette, blank, image, ring, lo, hi, offset, first, last)
  {
    var k, i := Origin(t, lo, hi, offset), FittedOrigin(t, lo, hi, offset, h);
    FittedInside(t, lo, hi, offset, h);
    image, ring := OneVisible(palette, blank, ch, h, w, k), seq(n, d => if d == k then [ch] else []);
    forall d | 0 <= d < h
      ensures RowShows(palette, blank, image[d], ring[d])
    {
    }
    assert !Shows(palette, blank, image[i][0], ring[k], 0);
    assert !LineShows(palette, blank, image, ring, i, k);
  }

  /** Whatever is on the screen, the lines that stay show what is then in the buffer. */
  ghost predicate AlwaysShows(palette: Palette, blank: Char, h: nat, w: nat, n: nat, lo: int, hi: int, offset: int,
                              first: int, last: int) {
    forall image: Grid<Look>, ring: seq<Cells> ::
      && IsGrid(image, h, w) && |ring| == n && RowsDisplayable(blank, ring, w)
      && ImageShows(palette, blank, image, ring, 0, h) ==>
        StillShows(palette, blank, image, ring, lo, hi, offset, first, last)
  }

  lemma AlwaysShowsIff(palette: Palette, blank: Char, ch: Char, h: nat, w: nat, n: nat, lo: int, hi: int, offset: int,
                       first: int, last: int)
    requires 0 < w && 0 < h <= n && CanMove(lo, hi, offset, h)
    requires IsSingle(ch) && HasGlyph(ch.value) && !HasGlyph(blank.value)
    requires forall t {:trigger Origin(t, lo, hi, offset)} :: 0 <= t < h && !(first <= t <= last) ==>
              0 <= Origin(t, lo, hi, offset) < n
    ensures AlwaysShows(palette, blank, h, w, n, lo, hi, offset, first, last)
       <==> InStep(h, lo, hi, offset, first, last)
  {
    if InStep(h, lo, hi, offset, first, last) {
      forall image: Grid<Look>, ring: seq<Cells> |
        IsGrid(image, h, w) && |ring| == n && RowsDisplayable(blank, ring, w)
            && ImageShows(palette, blank, image, ring, 0, h)
        ensures StillShows(palette, blank, image, ring, lo, hi, offset, first, last)
      {
        InStepShows(palette, blank, image, ring, lo, hi, offset, first, last);
      }
    } else {
      var t :| 0 <= t < h && !(first <= t <= last) && FittedOrigin(t, lo, hi, offset, h) != Origin(t, lo, hi, offset);
      var image, ring := OutOfStep(palette, blank, ch, h, w, n, lo, hi, offset, first, last, t);
    }
  }

  // Scrolling up.

  /** Rows from start to end can be scrolled up, in a screen of h rows that has been scrolled back by o. */
  predicate CanRaise(start: int, end: int, amount: int, h: int, o: int) {
    && 0 <= start && 0 <= end < h && 0 < amount < h && amount <= end + 1
    && CanMove(start + amount + o, end + o, -amount, h)
  }

  /** Rows lo to hi of the ring of n rows are those that move. The whole screen is scrolled by advancing the
      ring, which brings the oldest rows in behind the first `count`, and everything else by copying rows. */
  predicate Raised(start: int, end: int, amount: int, h: int, o: int, n: int, count: int, lo: int, hi: int) {
    if start == 0 && end == h - 1 then count == n - amount && lo == amount && hi == n - 1
    else count == n && lo == start + amount + o && hi == end + o
  }

  /** How far a cursor in the given row is moved up: with the rows that are copied, or with the whole screen. */
  function MovesUp(row: int, start: int, end: int, amount: int, h: int): int {
    var first := if start == 0 && end == h - 1 then 0 else start + amount;
    if first <= row <= end then amount else 0
  }

  /** The region ends above the end of the screen, and if nothing of it stays, then even above the last line. */
  predicate UpKeepsView(start: int, end: int, amount: int, h: int, o: int) {
    end + o < (if amount > end - start then h - 1 else h)
  }

  lemma RaisedAlike(start: int, end: int, amount: int, h: int, o: int, n: int, count: int, lo: int, hi: int)
    requires CanRaise(start, end, amount, h, o) && 0 <= o && h + o <= n
    requires Raised(start, end, amount, h, o, n, count, lo, hi)
    ensures CanMove(lo, hi, -amount, h)
    ensures start == 0 && end == h - 1 ==> Clamp(hi, -amount, h) == Clamp(end, -amount, h)
  {
  }

  lemma RestIsKnown(start: int, end: int, amount: int, h: int, o: int, n: int, count: int, lo: int, hi: int,
                    first: int, last: int)
    requires CanRaise(start, end, amount, h, o) && 0 <= o && h + o <= n
    requires Raised(start, end, amount, h, o, n, count, lo, hi)
    requires first == end - amount + 1 + o && last == end + o
    ensures RestKnown(h, count, first, last)
  {
  }

  /** Up, all is in step unless lines below the screen should have come in, or nothing is to be moved and
      the fitted range still has the last line in it. */
  lemma UpInStepIff(start: int, end: int, amount: int, h: int, o: int, n: int, count: int, lo: int, hi: int,
                    first: int, last: int)
    requires CanRaise(start, end, amount, h, o) && 0 <= o && h + o <= n
    requires Raised(start, end, amount, h, o, n, count, lo, hi)
    requires first == end - amount + 1 + o && last == end + o
    ensures InStep(h, lo, hi, -amount, first, last) <==> UpKeepsView(start, end, amount, h, o)
  {
    if UpKeepsView(start, end, amount, h, o) {
      forall t {:trigger Origin(t, lo, hi, -amount)} | 0 <= t < h && !(first <= t <= last)
        ensures FittedOrigin(t, lo, hi, -amount, h) == Origin(t, lo, hi, -amount)
      {
      }
    } else {
      var t := if start == 0 && end == h - 1 then h - amount
               else if amount > end - start || start + o >= h then h - 1 - amount
               else Fit(last - amount, 0, h - 1);
      assert FittedOrigin(t, lo, hi, -amount, h) != Origin(t, lo, hi, -amount);
    }
  }

  /** guac_terminal_scroll_up keeps the screen showing the buffer, whatever is on it, exactly in this case. */
  lemma ScrollUpIff(palette: Palette, blank: Char, ch: Char, w: nat, start: int, end: int, amount: int, h: int,
                    o: int, n: int, count: int, lo: int, hi: int, first: int, last: int)
    requires 0 < w && IsSingle(ch) && HasGlyph(ch.value) && !HasGlyph(blank.value)
    requires CanRaise(start, end, amount, h, o) && 0 <= o && h + o <= n
    requires Raised(start, end, amount, h, o, n, count, lo, hi)
    requires first == end - amount + 1 + o && last == end + o
    ensures AlwaysShows(palette, blank, h, w, n, lo, hi, -amount, first, last)
       <==> UpKeepsView(start, end, amount, h, o)
  {
    RaisedAlike(start, end, amount, h, o, n, count, lo, hi);
    UpInStepIff(start, end, amount, h, o, n, count, lo, hi, first, last);
    AlwaysShowsIff(palette, blank, ch, h, w, n, lo, hi, -amount, first, last);
  }

  lemma UpShows(palette: Palette, blank: Char, image: Grid<Look>, ring: seq<Cells>, start: int, end: int, amount: int,
                o: int, count: int, lo: int, hi: int, first: int, last: int)
    requires CanRaise(start, end, amount, |image|, o) && 0 <= o && |image| + o <= |ring|
    requires Raised(start, end, amount, |image|, o, |ring|, count, lo, hi)
    requires first == end - amount + 1 + o && last == end + o
    ensures ImageShows(palette, blank, image, ring, 0, |image|) && UpKeepsView(start, end, amount, |image|, o)
        ==> StillShows(palette, blank, image, ring, lo, hi, -amount, first, last)
  {
    if ImageShows(palette, blank, image, ring, 0, |image|) && UpKeepsView(start, end, amount, |image|, o) {
      RaisedAlike(start, end, amount, |image|, o, |ring|, count, lo, hi);
      UpInStepIff(start, end, amount, |image|, o, |ring|, count, lo, hi, first, last);
      InStepShows(palette, blank, image, ring, lo, hi, -amount, first, last);
    }
  }

  // Scrolling down.

  predicate CanLower(start: int, end: int, amount: int, h: int, o: int) {
    && 0 <= start && 0 <= end < h && 0 < amount < h && start + amount <= h
    && CanMove(start + o, end - amount + o, amount, h)
  }

  /** Some of the region is on the screen, and if nothing of it stays, then it does not begin with the first line.
      Only a region that is the wrong way round may also be off the screen. */
  predicate DownKeepsView(start: int, end: int, amount: int, h: int, o: int) {
    if start + o < h then amount <= end - start || start + o > 0 else end + o < h - 1 && amount < h - 1
  }

  lemma DownInStepIff(start: int, end: int, amount: int, h: int, o: int, lo: int, hi: int, first: int, last: int)
    requires CanLower(start, end, amount, h, o) && 0 <= o
    requires lo == start + o && hi == end - amount + o && first == start + o && last == start + amount - 1 + o
    ensures InStep(h, lo, hi, amount, first, last) <==> DownKeepsView(start, end, amount, h, o)
  {
    if DownKeepsView(start, end, amount, h, o) {
      forall t | 0 <= t < h && !(first <= t <= last)
        ensures FittedOrigin(t, lo, hi, amount, h) == Origin(t, lo, hi, amount)
      {
      }
    } else {
      var t := if lo < h then amount else h - 1;
      assert FittedOrigin(t, lo, hi, amount, h) != Origin(t, lo, hi, amount);
    }
  }

  /** guac_terminal_scroll_down keeps the screen showing the buffer, whatever is on it, exactly in this case. */
  lemma ScrollDownIff(palette: Palette, blank: Char, ch: Char, w: nat, start: int, end: int, amount: int, h: int,
                      o: int, n: int, lo: int, hi: int, first: int, last: int)
    requires 0 < w && IsSingle(ch) && HasGlyph(ch.value) && !HasGlyph(blank.value)
    requires CanLower(start, end, amount, h, o) && 0 <= o && h + o <= n
    requires lo == start + o && hi == end - amount + o && first == start + o && last == start + amount - 1 + o
    ensures AlwaysShows(palette, blank, h, w, n, lo, hi, amount, first, last)
       <==> DownKeepsView(start, end, amount, h, o)
  {
    DownInStepIff(start, end, amount, h, o, lo, hi, first, last);
    AlwaysShowsIff(palette, blank, ch, h, w, n, lo, hi, amount, first, last);
  }

  lemma DownShows(palette: Palette, blank: Char, image: Grid<Look>, ring: seq<Cells>, start: int, end: int,
                  amount: int, o: int, lo: int, hi: int, first: int, last: int)
    requires CanLower(start, end, amount, |image|, o) && 0 <= o
    requires lo == start + o && hi == end - amount + o && first == start + o && last == start + amount - 1 + o
    ensures ImageShows(palette, blank, image, ring, 0, |image|) && DownKeepsView(start, end, amount, |image|, o)
        ==> StillShows(palette, blank, image, ring, lo, hi, amount, first, last)
  {
    if ImageShows(palette, blank, image, ring, 0, |image|) && DownKeepsView(start, end, amount, |image|, o) {
      DownInStepIff(start, end, amount, |image|, o, lo, hi, first, last);
      InStepShows(palette, blank, image, ring, lo, hi, amount, first, last);
    }
  }

  // Copying columns.

  /** Once columns have been copied, each as it is done there, the screen shows what is then in the row. */
  ghost predicate ColumnsStillShow(palette: Palette, blank: Char, looks: seq<Look>, padded: Cells, start: int,
                                   end: int, offset: int) {
    forall c {:trigger FittedOrigin(c, start, end, offset, |looks|)} :: 0 <= c < |looks| ==>
      LookShows(palette, blank, looks, padded, FittedOrigin(c, start, end, offset, |looks|),
                FittedOrigin(c, start, end, offset, |padded|))
  }

  ghost predicate LookShows(palette: Palette, blank: Char, looks: seq<Look>, cells: Cells, column: int, cell: int) {
    0 <= column < |looks| && 0 <= cell && Shows(palette, blank, looks[column], cells, cell)
  }

  lemma ColumnsAfter(palette: Palette, blank: Char, was: Grid<Look>, now: Grid<Look>, h: nat, w: nat, line: int,
                     padded: Cells, start: int, end: int, offset: int, first: int, last: int, copied: Cells)
    requires 0 <= line < h && 0 < w && CanMove(start, end, offset, w) && -|padded| < offset < |padded|
    requires Moved(was, now, h, w, line, line, Clamp(start, offset, w), Clamp(end, offset, w), 0, offset)
    requires first == Clamp(start, offset, |padded|) && last == Clamp(end, offset, |padded|)
    requires 0 <= first <= last + 1 && last < |padded| && 0 <= first + offset && last + offset < |padded|
    requires copied == Copied(padded, first, last, offset)
    ensures RowShows(palette, blank, now[line], copied)
       <==> ColumnsStillShow(palette, blank, was[line], padded, start, end, offset)
  {
    forall c | 0 <= c < w
      ensures Shows(palette, blank, now[line][c], copied, c)
         <==> LookShows(palette, blank, was[line], padded, FittedOrigin(c, start, end, offset, w),
                        FittedOrigin(c, start, end, offset, |padded|))
    {
      LookMoved(was, now, h, w, line, start, end, offset, c);
      CellMoved(padded, first, last, offset, copied, c);
    }
    if RowShows(palette, blank, now[line], copied) {
      forall c | 0 <= c < w
        ensures LookShows(palette, blank, was[line], padded, FittedOrigin(c, start, end, offset, w),
                          FittedOrigin(c, start, end, offset, |padded|))
      {
        assert Shows(palette, blank, now[line][c], copied, c);
      }
    }
    if ColumnsStillShow(palette, blank, was[line], padded, start, end, offset) {
      forall c | 0 <= c < w
        ensures Shows(palette, blank, now[line][c], copied, c)
      {
        var k := FittedOrigin(c, start, end, offset, w);
      }
    }
  }

  lemma LookMoved(was: Grid<Look>, now: Grid<Look>, h: nat, w: nat, line: int, start: int, end: int, offset: int,
                  c: int)
    requires 0 <= line < h && 0 <= c < w && CanMove(start, end, offset, w)
    requires Moved(was, now, h, w, line, line, Clamp(start, offset, w), Clamp(end, offset, w), 0, offset)
    ensures var k := FittedOrigin(c, start, end, offset, w);
      0 <= k < w && now[line][c] == was[line][k]
  {
    FittedInside(c, start, end, offset, w);
    var k := FittedOrigin(c, start, end, offset, w);
    if Clamp(start, offset, w) <= c - offset <= Clamp(end, offset, w) {
      assert now[line + 0][k + offset] == was[line][k];
    }
  }

  lemma CellMoved(padded: Cells, first: int, last: int, offset: int, copied: Cells, c: int)
    requires 0 <= first <= last + 1 && last < |padded| && 0 <= first + offset && last + offset < |padded|
    requires copied == Copied(padded, first, last, offset) && 0 <= c
    ensures var k := Origin(c, first, last, offset);
      0 <= k && (k < |padded| <==> c < |copied|) && (c < |copied| ==> copied[c] == padded[k])
  {
  }

  /** Inside of both the screen and the row, all is in step. */
  lemma ColumnsInStep(palette: Palette, blank: Char, looks: seq<Look>, cells: Cells, padded: Cells, start: int,
                      end: int, offset: int)
    requires RowShows(palette, blank, looks, cells) && padded == Padded(cells, blank, end + offset + 1)
    requires 0 <= start <= end < |looks| && 0 <= start + offset && end + offset < |looks| && end < |padded|
    ensures ColumnsStillShow(palette, blank, looks, padded, start, end, offset)
  {
    forall c | 0 <= c < |looks|
      ensures LookShows(palette, blank, looks, padded, FittedOrigin(c, start, end, offset, |looks|),
                        FittedOrigin(c, start, end, offset, |padded|))
    {
      assert Shows(palette, blank, looks[FittedOrigin(c, start, end, offset, |looks|)], cells,
                   FittedOrigin(c, start, end, offset, |looks|));
    }
  }

  /** A cell looks no different from the nothing beyond the end of its row. */
  predicate LooksBlank(palette: Palette, blank: Char, ch: Char) {
    !IsVisible(blank, ch) || Show(palette, ch) == Show(palette, blank)
  }

  /** A range that ends beyond the row, though not beyond the screen, is in step exactly if there is nothing to
      be seen in the columns that the screen has replaced with the nothing behind the row, but the row has not. */
  lemma ColumnsBeyondIff(palette: Palette, blank: Char, looks: seq<Look>, cells: Cells, padded: Cells, start: int,
                         end: int, offset: int)
    requires RowShows(palette, blank, looks, cells) && padded == Padded(cells, blank, end + offset + 1)
    requires 0 <= start < |padded| <= end < |looks| && 0 <= start + offset && offset < 0
    ensures ColumnsStillShow(palette, blank, looks, padded, start, end, offset)
       <==> forall c :: |padded| + offset <= c <= end + offset ==> LooksBlank(palette, blank, padded[c])
  {
    forall c | 0 <= c < |looks|
      ensures LookShows(palette, blank, looks, padded, FittedOrigin(c, start, end, offset, |looks|),
                        FittedOrigin(c, start, end, offset, |padded|))
         <==> (|padded| + offset <= c <= end + offset ==> LooksBlank(palette, blank, padded[c]))
    {
      assert Shows(palette, blank, looks[FittedOrigin(c, start, end, offset, |looks|)], cells,
                   FittedOrigin(c, start, end, offset, |looks|));
    }
    if c :| |padded| + offset <= c <= end + offset && !LooksBlank(palette, blank, padded[c]) {
      var k := FittedOrigin(c, start, end, offset, |looks|);
    }
  }

  /** Deleting one character in a row that is one short of the width of the screen, and whose last character can
      be seen: that is then in the row twice, but on the screen once. */
  lemma DeleteOneShort(palette: Palette, blank: Char, looks: seq<Look>, cells: Cells, column: int)
    requires RowShows(palette, blank, looks, cells) && |cells| == |looks| - 1 && 0 <= column < |cells| - 1
    requires !LooksBlank(palette, blank, cells[|cells| - 1])
    ensures !ColumnsStillShow(palette, blank, looks, Padded(cells, blank, |cells|), column + 1, |looks| - 1, -1)
  {
    ColumnsBeyondIff(palette, blank, looks, cells, cells, column + 1, |looks| - 1, -1);
  }
}
