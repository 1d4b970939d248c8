/** When the screen shows the rows of the buffer: src/terminal/terminal.c without its state. */
module Views {
  import opened Grids
  import opened TerminalTypes
  import opened WideChars
  import opened RowWrites
  import opened Displays
  import opened Buffers

  /** guac_terminal_is_visible */
  predicate IsVisible(blank: Char, ch: Char) {
    ch.value != CONTINUATION && (HasGlyph(ch.value) || !SameColor(Backdrop(ch), blank.attributes.background))
  }

  /** Characters of one column each, none of which is visible from column `width` on. */
  ghost predicate Displayable(blank: Char, cells: Cells, width: int) {
    forall c :: 0 <= c < |cells| ==>
      !IsContinuation(cells[c]) && cells[c].width == 1 && (c >= width ==> !IsVisible(blank, cells[c]))
  }

  ghost predicate RowsDisplayable(blank: Char, rows: seq<Cells>, width: int) {
    forall k {:trigger rows[k]} :: 0 <= k < |rows| ==> Displayable(blank, rows[k], width)
  }

  /** Column c of a row of characters, as it appears on the screen; characters that are not visible
      may also appear as the blank character. */
  ghost predicate Shows(palette: Palette, blank: Char, look: Look, cells: Cells, c: nat) {
    || (c < |cells| && look == Show(palette, cells[c]))
    || ((c >= |cells| || !IsVisible(blank, cells[c])) && look == Show(palette, blank))
  }

  ghost predicate RowShows(palette: Palette, blank: Char, looks: seq<Look>, cells: Cells) {
    forall c {:trigger looks[c]} :: 0 <= c < |looks| ==> Shows(palette, blank, looks[c], cells, c)
  }

  // Drawing a row of the buffer.

  /** The last visible character among those from column `width` on but before column n, or else -1: all of these are
      drawn into the last column of the screen. */
  function LastBeyond(blank: Char, cells: Cells, width: nat, n: nat): (v: int)
    requires n <= |cells|
    ensures v == -1 || (width <= v < n && IsVisible(blank, cells[v]))
    ensures forall c :: width <= c < n && c > v ==> !IsVisible(blank, cells[c])
  {
    if n <= width then -1 else if IsVisible(blank, cells[n - 1]) then n - 1 else LastBeyond(blank, cells, width, n - 1)
  }

  /** The last column shows its character although others may be drawn over it. */
  ghost predicate EdgeShows(palette: Palette, blank: Char, cells: Cells, width: nat)
    requires width > 0
  {
    var v := LastBeyond(blank, cells, width, |cells|);
    v == -1 || Shows(palette, blank, Show(palette, cells[v]), cells, width - 1)
  }

  lemma EdgeIsDisplayed(palette: Palette, blank: Char, cells: Cells, width: nat)
    requires width > 0 && Displayable(blank, cells, width)
    ensures EdgeShows(palette, blank, cells, width)
  {
  }

  /** The looks of a line once the first n characters have been drawn. */
  ghost predicate RowDrawn(palette: Palette, blank: Char, looks: seq<Look>, cells: Cells, n: nat)
    requires n <= |cells|
  {
    forall c {:trigger looks[c]} :: 0 <= c < |looks| ==>
      looks[c] == Show(palette, var v := LastBeyond(blank, cells, |looks|, n);
                                if c == |looks| - 1 && v != -1 then cells[v]
                                else if c < n && IsVisible(blank, cells[c]) then cells[c]
                                else blank)
  }

  lemma OneMoreDrawn(palette: Palette, blank: Char, was: Grid<Look>, now: Grid<Look>, h: nat, w: nat, line: int,
                     cells: Cells, n: nat)
    requires 0 < w && 0 <= line < h && n < |cells| && IsGrid(was, h, w)
    requires RowDrawn(palette, blank, was[line], cells, n)
    requires if IsVisible(blank, cells[n]) then
               LinePainted(was, now, h, w, line, Fit(n, 0, w - 1), Fit(n, 0, w - 1), Show(palette, cells[n]))
             else now == was
    ensures RowDrawn(palette, blank, now[line], cells, n + 1)
  {
    var v := LastBeyond(blank, cells, w, n);
    assert LastBeyond(blank, cells, w, n + 1) == if w <= n && IsVisible(blank, cells[n]) then n else v;
  }

  /** A row that has been drawn is shown exactly if its last column is. */
  lemma DrawnShowsIff(palette: Palette, blank: Char, looks: seq<Look>, cells: Cells)
    requires |looks| > 0 && RowDrawn(palette, blank, looks, cells, |cells|)
    ensures RowShows(palette, blank, looks, cells) <==> EdgeShows(palette, blank, cells, |looks|)
  {
    var w := |looks|;
    forall c | 0 <= c < w - 1
      ensures Shows(palette, blank, looks[c], cells, c)
    {
    }
    assert RowShows(palette, blank, looks, cells) <==> Shows(palette, blank, looks[w - 1], cells, w - 1);
  }

  /** Lines lo to hi - 1 of an image have just been drawn: which of them show their rows. */
  ghost predicate LinesDrawn(palette: Palette, blank: Char, image: Grid<Look>, lines: seq<Cells>, width: nat, lo: int,
                             hi: int)
    requires width > 0
  {
    && |image| <= |lines|
    && forall d {:trigger image[d]} :: 0 <= d < |image| && lo <= d < hi ==>
         (RowShows(palette, blank, image[d], lines[d]) <==> EdgeShows(palette, blank, lines[d], width))
  }

  ghost predicate EdgesShow(palette: Palette, blank: Char, lines: seq<Cells>, width: nat, lo: int, hi: int)
    requires width > 0 && 0 <= lo && hi <= |lines|
  {
    forall d {:trigger lines[d]} :: lo <= d < hi ==> EdgeShows(palette, blank, lines[d], width)
  }

  lemma EdgesAreDisplayed(palette: Palette, blank: Char, lines: seq<Cells>, width: nat, lo: int, hi: int)
    requires width > 0 && 0 <= lo && hi <= |lines| && RowsDisplayable(blank, lines, width)
    ensures EdgesShow(palette, blank, lines, width, lo, hi)
  {
    forall d | lo <= d < hi
      ensures EdgeShows(palette, blank, lines[d], width)
    {
      EdgeIsDisplayed(palette, blank, lines[d], width);
    }
  }

  /** ... and exactly when the image does, if all others do. */
  lemma ImageShowsIff(palette: Palette, blank: Char, was: Grid<Look>, image: Grid<Look>, lines: seq<Cells>,
                      width: nat, lo: int, hi: int)
    requires width > 0 && LinesDrawn(palette, blank, image, lines, width, lo, hi) && |was| == |image|
    requires ImageShows(palette, blank, was, lines, 0, lo) && ImageShows(palette, blank, was, lines, hi, |was|)
    requires forall d :: 0 <= d < |was| && !(lo <= d < hi) ==> image[d] == was[d]
    ensures ImageShows(palette, blank, image, lines, 0, |image|) <==> EdgesShow(palette, blank, lines, width,
                                                                         Fit(lo, 0, |image|), Fit(hi, 0, |image|))
  {
    forall d | 0 <= d < |was| && !(lo <= d < hi)
      ensures RowShows(palette, blank, image[d], lines[d])
    {
      assert RowShows(palette, blank, was[d], lines[d]);
    }
    if ImageShows(palette, blank, image, lines, 0, |image|) {
      forall d | Fit(lo, 0, |image|) <= d < Fit(hi, 0, |image|)
        ensures EdgeShows(palette, blank, lines[d], width)
      {
        assert RowShows(palette, blank, image[d], lines[d]);
      }
    }
  }

  /** One range of a row shows a look. */
  ghost predicate LinePainted(was: Grid<Look>, now: Grid<Look>, h: nat, w: nat, row: int, first: int, last: int,
                              look: Look) {
    && IsGrid(was, h, w) && IsGrid(now, h, w)
    && forall r, c {:trigger now[r][c]} :: 0 <= r < h && 0 <= c < w ==>
         now[r][c] == if r == row && first <= c <= last then look else was[r][c]
  }

  lemma PlottedByOnes(was: Grid<Look>, now: Grid<Look>, h: nat, w: nat, row: int, first: int, last: int, look: Look)
    requires Plotted(was, now, h, w, row, first, last, 1, look)
    ensures LinePainted(was, now, h, w, row, first, last, look)
  {
    forall r, c | 0 <= r < h && 0 <= c < w
      ensures now[r][c] == if r == row && first <= c <= last then look else was[r][c]
    {
      ReachedByOnes(first, c);
    }
  }

  /** Characters of one column that have been written to a row of such are shown, if the others are. */
  lemma SinglesWritten(palette: Palette, blank: Char, was: Grid<Look>, now: Grid<Look>, h: nat, w: nat, line: int,
                       start: int, end: int, ch: Char, n: nat, cells: Cells, r: Cells)
    requires 0 < w && 0 <= start <= end && start < w && 0 <= line
    requires IsSingle(ch) && IsSingle(blank) && AllSingle(cells) && end - start + 1 == n
    requires line < h ==> LinePainted(was, now, h, w, line, Fit(start, 0, w - 1), Fit(end, 0, w - 1), Show(palette, ch))
    requires line < h ==> RowShows(palette, blank, was[line], cells) || (start == 0 && w <= end + 1)
    requires r == Overlaid(Padded(cells, blank, end + 1), start, Tiles(ch, n))
    ensures AllSingle(r) && (line < h ==> RowShows(palette, blank, now[line], r))
  {
    OverlaidSingles(cells, blank, start, end, ch);
    if line < h {
      forall c | 0 <= c < w
        ensures Shows(palette, blank, now[line][c], r, c)
      {
        assert RowShows(palette, blank, was[line], cells) ==> Shows(palette, blank, was[line][c], cells, c);
      }
    }
  }

  /** A row is still shown after no character has been written at column `start`, although the display then draws
      into the first or the last column, if that is the nearest. */
  ghost predicate StaysShown(palette: Palette, blank: Char, cells: Cells, width: nat, start: int, ch: Char)
    requires width > 0
  {
    1 <= start < width || Shows(palette, blank, Show(palette, ch), cells, if start == 0 then 0 else width - 1)
  }

  lemma NothingWritten(palette: Palette, blank: Char, was: Grid<Look>, now: Grid<Look>, h: nat, w: nat, line: int,
                       start: int, end: int, ch: Char, cells: Cells, r: Cells)
    requires 0 < w && 0 <= line < h && 0 <= start == end + 1
    requires LinePainted(was, now, h, w, line, Fit(start, 0, w - 1), Fit(end, 0, w - 1), Show(palette, ch))
    requires RowShows(palette, blank, was[line], cells) && r == Padded(cells, blank, start)
    ensures RowShows(palette, blank, now[line], r) <==> StaysShown(palette, blank, cells, w, start, ch)
  {
    forall c | 0 <= c < w
      ensures Shows(palette, blank, now[line][c], r, c) <==> Shows(palette, blank, now[line][c], cells, c)
      ensures Shows(palette, blank, was[line][c], cells, c)
    {
    }
    var painted := if start == 0 then 0 else w - 1;
    assert now[line][painted] == if 1 <= start < w then was[line][painted] else Show(palette, ch);
  }

  /** Lines lo to hi - 1 of an image show these rows. */
  ghost predicate ImageShows(palette: Palette, blank: Char, image: Grid<Look>, lines: seq<Cells>, lo: int, hi: int) {
    && |image| <= |lines|
    && forall d {:trigger image[d]} :: 0 <= d < |image| && lo <= d < hi ==>
         RowShows(palette, blank, image[d], lines[d])
  }

  lemma OneLine(palette: Palette, blank: Char, was: Grid<Look>, now: Grid<Look>, before: seq<Cells>,
                after: seq<Cells>, line: int, lo: int, hi: int, lo': int)
    requires |now| == |was| <= |before| == |after|
    requires ImageShows(palette, blank, was, before, 0, lo) && ImageShows(palette, blank, was, before, hi, |was|)
    requires forall d :: 0 <= d < |was| && d != line ==> now[d] == was[d] && after[d] == before[d]
    requires 0 <= line < |now| ==> RowShows(palette, blank, now[line], after[line])
    requires lo' == lo || (lo' == lo + 1 && lo == line)
    ensures ImageShows(palette, blank, now, after, 0, lo') && ImageShows(palette, blank, now, after, hi, |now|)
  {
    forall d | 0 <= d < |now| && (d < lo' || hi <= d)
      ensures RowShows(palette, blank, now[d], after[d])
    {
      assert d != line ==> RowShows(palette, blank, was[d], before[d]);
    }
  }

  lemma OneMoreLine(palette: Palette, blank: Char, was: Grid<Look>, now: Grid<Look>, before: seq<Cells>,
                    after: seq<Cells>, lo: int, line: int)
    requires |now| == |was| <= |before| == |after| && ImageShows(palette, blank, was, before, lo, line)
    requires forall d :: 0 <= d < |was| && d != line ==> now[d] == was[d] && after[d] == before[d]
    requires 0 <= line < |now| ==> RowShows(palette, blank, now[line], after[line])
    ensures ImageShows(palette, blank, now, after, lo, line + 1)
  {
    forall d | 0 <= d < |now| && lo <= d < line + 1
      ensures RowShows(palette, blank, now[d], after[d])
    {
      assert d != line ==> RowShows(palette, blank, was[d], before[d]);
    }
  }

  /** Moving the lines of the screen moves what they show. */
  lemma LinesMoved(was: Grid<Look>, now: Grid<Look>, lo: int, hi: int, down: int, h: nat, w: nat, lines: seq<Cells>,
                   moved: seq<Cells>, palette: Palette, blank: Char)
    requires Moved(was, now, h, w, lo, hi, 0, w - 1, down, 0) && 0 <= lo + down && hi + down < h
    requires ImageShows(palette, blank, was, lines, lo, hi + 1) && |moved| == |lines|
    requires forall d {:trigger moved[d]} :: lo <= d - down <= hi ==> moved[d] == lines[d - down]
    ensures ImageShows(palette, blank, now, moved, lo + down, hi + down + 1)
  {
    forall d | lo + down <= d < hi + down + 1
      ensures RowShows(palette, blank, now[d], moved[d])
    {
      var s := d - down;
      assert RowShows(palette, blank, was[s], lines[s]);
      forall c | 0 <= c < w
        ensures now[d][c] == was[s][c]
      {
        assert now[s + down][c + 0] == was[s][c];
      }
    }
  }

  lemma OtherLinesStay(was: Grid<Look>, now: Grid<Look>, h: nat, w: nat, line: int, lo: int, hi: int, across: int)
    requires Moved(was, now, h, w, line, line, lo, hi, 0, across)
    ensures forall d :: 0 <= d < h && d != line ==> now[d] == was[d]
  {
    forall d | 0 <= d < h && d != line
      ensures now[d] == was[d]
    {
      forall c | 0 <= c < w
        ensures now[d][c] == was[d][c]
      {
      }
    }
  }

  /** Rows lo to hi have been cleared. */
  ghost predicate RowsWiped(was: seq<Cells>, now: seq<Cells>, lo: int, hi: int, ch: Char, width: int) {
    && |now| == |was|
    && forall k {:trigger now[k]} :: 0 <= k < |now| ==>
         if lo <= k <= hi then Wiped(now[k], ch, width) else now[k] == was[k]
  }

  lemma OneRowWiped(was: seq<Cells>, before: seq<Cells>, after: seq<Cells>, lo: int, k: int, ch: Char, width: int)
    requires RowsWiped(was, before, lo, k - 1, ch, width) && 0 <= lo <= k < |was|
    requires |after| == |before| && after == before[k := after[k]] && Wiped(after[k], ch, width)
    ensures RowsWiped(was, after, lo, k, ch, width)
  {
    forall j | 0 <= j < |after|
      ensures if lo <= j <= k then Wiped(after[j], ch, width) else after[j] == was[j]
    {
      assert j != k ==> after[j] == before[j];
    }
  }

  /** Every column of the screen holds the character, with or without the cursor on it. */
  ghost predicate Wiped(cells: Cells, ch: Char, width: int) {
    width <= |cells| && forall c :: 0 <= c < width ==> cells[c] == ch || cells[c] == WithCursor(ch)
  }

  lemma WrittenRow(c: Cells, blank: Char, start: int, end: int, ch: Char, n: nat, edge: int, cursor: int, width: nat,
                   r: Cells)
    requires Displayable(blank, c, width) && IsSingle(blank) && IsSingle(ch) && 0 <= start <= end + 1 <= width
    requires n == end - start + 1 && edge == end + 1 == start + n * ch.width
    requires r == SetRow(c, blank, start, edge, ch, n, cursor)
    ensures Displayable(blank, r, width) && Replaced(c, r, blank, start, end, ch, cursor)
  {
    SetSingles(c, blank, start, end, ch, n, edge, cursor);
    ShownRow(c, blank, start, end, ch, n, cursor, width, r);
  }

  /** What becomes of a row, and of all rows with it. */
  lemma WrittenRing(ring: seq<Cells>, k: int, was: Cells, blank: Char, start: int, end: int, stop: int, ch: Char,
                    n: nat, cursor: int, width: nat)
    returns (now: Cells, after: seq<Cells>)
    requires RowsDisplayable(blank, ring, width) && 0 <= k < |ring| && was == ring[k]
    requires IsSingle(blank) && IsSingle(ch) && 0 <= start <= end + 1 <= width
    requires n == end - start + 1 && stop == end + 1
    ensures stop == start + n * ch.width && now == SetRow(was, blank, start, stop, ch, n, cursor)
    ensures AllSingle(was) && after == ring[k := now]
    ensures RowsDisplayable(blank, after, width) && Replaced(was, now, blank, start, end, ch, cursor)
  {
    assert Displayable(blank, was, width);
    now := SetRow(was, blank, start, stop, ch, n, cursor);
    after := ring[k := now];
    WrittenRow(was, blank, start, end, ch, n, stop, cursor, width, now);
    forall i | 0 <= i < |after|
      ensures Displayable(blank, after[i], width)
    {
      assert i != k ==> after[i] == ring[i];
    }
  }

  lemma ShownRow(c: Cells, blank: Char, start: int, end: int, ch: Char, n: nat, cursor: int, width: nat, r: Cells)
    requires Displayable(blank, c, width) && IsSingle(blank) && IsSingle(ch) && 0 <= start <= end + 1 <= width
    requires n == end - start + 1 && r == Shown(c, blank, start, ch, n, cursor)
    ensures Displayable(blank, r, width) && Replaced(c, r, blank, start, end, ch, cursor)
  {
    ShownSingles(c, blank, start, end, ch, n, cursor);
  }

  /** The columns from start to end hold the character, with the cursor on it if that is there. */
  ghost predicate Replaced(c: Cells, r: Cells, blank: Char, start: int, end: int, ch: Char, cursor: int) {
    && |r| == |Padded(c, blank, end + 1)|
    && forall i :: 0 <= i < |r| ==>
         r[i] == if start <= i <= end then if i == cursor then WithCursor(ch) else ch
                 else if i < |c| then c[i] else blank
  }
}
