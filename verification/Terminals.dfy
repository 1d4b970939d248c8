/** The terminal: its buffer, its display, and the part of the buffer that the display shows.
    From src/terminal/terminal.c. */
module Terminals {
  import opened Grids
  import opened TerminalTypes
  import opened WideChars
  import opened RowWrites
  import opened Displays
  import opened Buffers
  import opened Views
  import opened ColumnCopies
  import opened Scrolls

  /** guac_terminal; buffer.blank is also its default_char. */
  class Terminal {
    const display: Display
    const buffer: Buffer
    /** No row has anything visible from this column on: the width of the screen, or one more if the cursor may be
        shown while it waits behind the last column. */
    ghost const edge: int
    var scrollOffset: int
    var visibleCursorRow: int
    var visibleCursorCol: int
    var requestedScrollback: int
    var maxScrollback: int

    constructor (display: Display, buffer: Buffer, ghost edge: int)
      requires display.Valid() && 0 < display.width <= edge && 0 < display.height <= buffer.rows.Length
      requires buffer.length <= buffer.rows.Length && IsSingle(buffer.blank)
      ensures Valid() && this.display == display && this.buffer == buffer && this.edge == edge && scrollOffset == 0
    {
      this.display, this.buffer, this.edge := display, buffer, edge;
      scrollOffset, visibleCursorRow, visibleCursorCol := 0, 0, 0;
      requestedScrollback, maxScrollback := buffer.rows.Length, buffer.rows.Length;
    }

    ghost predicate Valid()
      reads this`scrollOffset, display, display.operations, buffer, buffer.rows
    {
      && display.Valid() && 0 < display.width <= edge && display.height > 0
      && buffer.rows.Length > 0 && buffer.length <= buffer.rows.Length
      && 0 <= scrollOffset && scrollOffset + display.height <= buffer.rows.Length
      && !IsContinuation(buffer.blank) && buffer.blank.width == 1
    }

    /** All rows of the buffer, beginning with those that the view has been scrolled to. */
    ghost function Ring(): (ring: seq<Cells>)
      requires buffer.rows.Length > 0
      reads this`scrollOffset, buffer`top, buffer.rows
      ensures |ring| == buffer.rows.Length
    {
      buffer.Window(-scrollOffset)
    }

    /** A row of the screen as it is in the buffer. */
    ghost function RowOf(row: int): Cells
      requires buffer.rows.Length > 0 && 0 <= row + scrollOffset < |Ring()|
      reads this`scrollOffset, buffer`top, buffer.rows
    {
      Ring()[row + scrollOffset]
    }

    /** The whole screen shows the part of the buffer that the view has been scrolled to. */
    ghost predicate ViewShows()
      requires Valid()
      reads this`scrollOffset, display, display.operations, buffer, buffer.rows
    {
      ImageShows(display.palette, buffer.blank, display.Effective(), Ring(), 0, display.height)
    }

    ghost predicate AllDisplayable()
      requires buffer.rows.Length > 0
      reads this`scrollOffset, buffer`top, buffer.rows
    {
      RowsDisplayable(buffer.blank, Ring(), edge)
    }

    /** ... which does not depend on how far back the view has been scrolled. */
    lemma DisplayableFrom(base: int)
      requires Valid() && AllDisplayable()
      ensures RowsDisplayable(buffer.blank, buffer.Window(base), edge)
    {
      var other := buffer.Window(base);
      forall k | 0 <= k < |other|
        ensures Displayable(buffer.blank, other[k], edge)
      {
        var i := Slot(buffer.top, base + k, buffer.rows.Length);
        RowAt(buffer.rows[..], buffer.top, base, k);
        var j := InRing(buffer.rows[..], buffer.top, -scrollOffset, i);
        assert Ring()[j] == other[k];
      }
    }

    /** Sets columns of the display to a character of one column. */
    method Show1(row: int, start: int, end: int, ch: Char)
      requires display.Valid() && display.width > 0 && ch.width == 1
      modifies display.operations
      ensures display.Valid()
      ensures LinePainted(old(display.Effective()), display.Effective(), display.height, display.width, row,
                      Fit(start, 0, display.width - 1), Fit(end, 0, display.width - 1), Show(display.palette, ch))
    {
      display.SetColumns(row, start, end, ch);
      if 0 <= row < display.height {
        PlottedByOnes(old(display.Effective()), display.Effective(), display.height, display.width, row,
                      Fit(start, 0, display.width - 1), Fit(end, 0, display.width - 1), Show(display.palette, ch));
      }
    }

    /** Draws a row of the buffer into a row of the display, which may be off the screen. The line then shows the
        row exactly if nothing else has been drawn over its last column. */
    method DrawRow(dest: int, cells: Cells)
      requires display.Valid() && display.width > 0 && buffer.blank.width == 1 && AllSingle(cells)
      modifies display.operations
      ensures display.Valid()
      ensures forall d :: 0 <= d < display.height && d != dest ==> display.Effective()[d] == old(display.Effective()[d])
      ensures 0 <= dest < display.height ==>
                && RowDrawn(display.palette, buffer.blank, display.Effective()[dest], cells, |cells|)
                && (RowShows(display.palette, buffer.blank, display.Effective()[dest], cells)
                    <==> EdgeShows(display.palette, buffer.blank, cells, display.width))
    {
      Show1(dest, 0, display.width, buffer.blank);
      var column := 0;
      while column < |cells|
        invariant 0 <= column <= |cells| && display.Valid()
        invariant forall d :: 0 <= d < display.height && d != dest ==>
                  display.Effective()[d] == old(display.Effective()[d])
        invariant 0 <= dest < display.height ==>
                  RowDrawn(display.palette, buffer.blank, display.Effective()[dest], cells, column)
      {
        DrawNext(dest, column, cells);
        column := column + 1;
      }
      if 0 <= dest < display.height {
        DrawnShowsIff(display.palette, buffer.blank, display.Effective()[dest], cells);
      }
    }

    /** Draws the next character of a row, if it is visible. */
    method DrawNext(dest: int, column: int, cells: Cells)
      requires display.Valid() && display.width > 0 && AllSingle(cells) && 0 <= column < |cells|
      requires 0 <= dest < display.height ==>
                 RowDrawn(display.palette, buffer.blank, display.Effective()[dest], cells, column)
      modifies display.operations
      ensures display.Valid()
      ensures forall d :: 0 <= d < display.height && d != dest ==> display.Effective()[d] == old(display.Effective()[d])
      ensures 0 <= dest < display.height ==>
                RowDrawn(display.palette, buffer.blank, display.Effective()[dest], cells, column + 1)
    {
      ghost var was := display.Effective();
      if IsVisible(buffer.blank, cells[column]) {
        Show1(dest, column, column, cells[column]);
      }
      if 0 <= dest < display.height {
        OneMoreDrawn(display.palette, buffer.blank, was, display.Effective(), display.height, display.width, dest,
                     cells, column);
      }
    }

    /** guac_terminal_get_available_scroll */
    function AvailableScroll(): (r: int)
      reads this, buffer
      ensures r + display.height <= buffer.length
    {
      var scrollback := if requestedScrollback > maxScrollback then maxScrollback
                        else if requestedScrollback < display.height then display.height else requestedScrollback;
      (if buffer.length > scrollback then scrollback else buffer.length) - display.height
    }

    /** Moves rows of the display that stay on it. */
    method MoveRows(lo: int, hi: int, down: int)
      requires display.Valid() && display.width > 0 && 0 <= lo <= hi < display.height
      requires 0 <= lo + down && hi + down < display.height
      modifies display.operations
      ensures display.Valid()
      ensures Moved(old(display.Effective()), display.Effective(), display.height, display.width, lo, hi, 0,
                    display.width - 1, down, 0)
    {
      display.CopyRows(lo, hi, down);
      assert Clamp(lo, down, display.height) == lo && Clamp(hi, down, display.height) == hi;
    }

    /** Moves the lines of the screen that stay on it. */
    method MoveLines(lo: int, hi: int, down: int, ghost lines: seq<Cells>, ghost moved: seq<Cells>)
      requires display.Valid() && display.width > 0 && 0 <= lo <= hi < display.height
      requires 0 <= lo + down && hi + down < display.height
      requires ImageShows(display.palette, buffer.blank, display.Effective(), lines, lo, hi + 1)
      requires display.height <= |moved| == |lines|
      requires forall d {:trigger moved[d]} :: lo <= d - down <= hi ==> moved[d] == lines[d - down]
      modifies display.operations
      ensures display.Valid()
      ensures ImageShows(display.palette, buffer.blank, display.Effective(), moved, lo + down, hi + down + 1)
    {
      MoveRows(lo, hi, down);
      LinesMoved(old(display.Effective()), display.Effective(), lo, hi, down, display.height, display.width,
                 lines, moved, display.palette, buffer.blank);
    }

    /** Reads the row of a line, which may be off the screen. */
    method ReadLine(dest: int, row: int) returns (cells: Cells)
      requires Valid() && AllDisplayable() && row == dest - scrollOffset
      ensures AllSingle(cells) && (0 <= dest < display.height ==> cells == Ring()[dest])
    {
      ghost var base := if 0 <= dest < display.height then -scrollOffset else row;
      DisplayableFrom(base);
      cells := buffer.ReadRow(row, base);
    }

    /** Draws lines lo to hi - 1 from the buffer, some of which may be off the screen. */
    method DrawLines(lo: int, hi: int, startRow: int)
      requires Valid() && AllDisplayable() && lo <= hi && startRow == lo - scrollOffset
      modifies display.operations
      ensures Valid()
      ensures LinesDrawn(display.palette, buffer.blank, display.Effective(), Ring(), display.width, lo, hi)
      ensures forall d :: 0 <= d < display.height && !(lo <= d < hi) ==>
                display.Effective()[d] == old(display.Effective()[d])
    {
      var dest, row := lo, startRow;
      while dest < hi
        invariant lo <= dest <= hi && row == dest - scrollOffset && Valid()
        invariant LinesDrawn(display.palette, buffer.blank, display.Effective(), Ring(), display.width, lo, dest)
        invariant forall d :: 0 <= d < display.height && !(lo <= d < hi) ==>
                  display.Effective()[d] == old(display.Effective()[d])
      {
        var cells := ReadLine(dest, row);
        DrawRow(dest, cells);
        dest, row := dest + 1, row + 1;
      }
    }

    /** Scrolls the view to an offset and draws lines lo to hi - 1; all other lines show it already. */
    method ScrollTo(offset: int, lo: int, hi: int, startRow: int, ghost moved: seq<Cells>)
      requires Valid() && 0 <= offset && offset + display.height <= buffer.rows.Length && startRow == lo - offset
      requires lo <= hi && moved == buffer.Window(-offset)
      requires RowsDisplayable(buffer.blank, moved, edge)
      requires ImageShows(display.palette, buffer.blank, display.Effective(), moved, 0, lo)
      requires ImageShows(display.palette, buffer.blank, display.Effective(), moved, hi, display.height)
      modifies this`scrollOffset, display.operations
      ensures Valid() && AllDisplayable() && Ring() == moved && scrollOffset == offset
      ensures ViewShows() <==> EdgesShow(display.palette, buffer.blank, moved, display.width,
                                         Fit(lo, 0, display.height), Fit(hi, 0, display.height))
    {
      ghost var was := display.Effective();
      scrollOffset := offset;
      DrawLines(lo, hi, startRow);
      ImageShowsIff(display.palette, buffer.blank, was, display.Effective(), moved, display.width, lo, hi);
    }

    /** The view as it is after it has been scrolled and lines lo to hi - 1 drawn: the screen shows it exactly if the
        last column of each of these does. */
    ghost predicate ViewDrawn(lo: int, hi: int)
      requires Valid() && 0 <= lo && hi <= display.height
      reads this`scrollOffset, display, display.operations, buffer, buffer.rows
    {
      && (ViewShows() <==> EdgesShow(display.palette, buffer.blank, Ring(), display.width, lo, hi))
      && (edge == display.width ==> ViewShows())
    }

    /** guac_terminal_scroll_display_down */
    method ScrollViewDown(amount: int)
      requires Valid() && ViewShows() && AllDisplayable()
      modifies this`scrollOffset, display.operations
      ensures Valid() && AllDisplayable()
      ensures ViewDrawn(Fit(display.height - (old(scrollOffset) - scrollOffset), 0, display.height), display.height)
      ensures scrollOffset
           == if amount <= 0 then old(scrollOffset)
              else if amount > old(scrollOffset) then 0
              else old(scrollOffset) - amount
    {
      var shift := if amount > scrollOffset then scrollOffset else amount;
      if shift <= 0 {
        return;
      }
      var height := display.height;
      var offset := scrollOffset - shift;
      ghost var moved := ShiftedRing(shift, offset);
      if height > shift {
        MoveLines(shift, height - 1, -shift, Ring(), moved);
      }
      var endRow := height - offset - 1;
      var destRow, startRow := height - shift, endRow - shift + 1;
      ScrollTo(offset, destRow, height, startRow, moved);
      if edge == display.width {
        EdgesAreDisplayed(display.palette, buffer.blank, moved, display.width, Fit(destRow, 0, height), height);
      }
    }

    /** guac_terminal_scroll_display_up */
    method ScrollViewUp(amount: int)
      requires Valid() && ViewShows() && AllDisplayable()
      modifies this`scrollOffset, display.operations
      ensures Valid() && AllDisplayable()
      ensures ViewDrawn(0, Fit(scrollOffset - old(scrollOffset), 0, display.height))
      ensures scrollOffset == if amount <= 0 || old(scrollOffset) >= AvailableScroll() then old(scrollOffset)
                              else if old(scrollOffset) + amount > AvailableScroll() then AvailableScroll()
                              else old(scrollOffset) + amount
    {
      var available := AvailableScroll();
      var shift := if scrollOffset + amount > available then available - scrollOffset else amount;
      if shift <= 0 {
        return;
      }
      var height := display.height;
      var offset := scrollOffset + shift;
      ghost var moved := ShiftedRing(-shift, offset);
      if height > shift {
        MoveLines(0, height - shift - 1, shift, Ring(), moved);
      }
      ScrollTo(offset, 0, shift, -offset, moved);
      if edge == display.width {
        EdgesAreDisplayed(display.palette, buffer.blank, moved, display.width, 0, Fit(shift, 0, height));
      }
    }

    /** The ring once the view has been scrolled down by `shift`. */
    lemma ShiftedRing(shift: int, offset: int) returns (moved: seq<Cells>)
      requires Valid() && AllDisplayable() && offset == scrollOffset - shift
      ensures moved == buffer.Window(-offset) && |moved| == |Ring()|
      ensures forall d {:trigger moved[d]} :: 0 <= d < |Ring()| && 0 <= d + shift < |Ring()| ==>
                moved[d] == Ring()[d + shift]
      ensures RowsDisplayable(buffer.blank, moved, edge)
    {
      moved := buffer.Window(-offset);
      DisplayableFrom(-offset);
      assert -offset == -scrollOffset + shift;
      forall d | 0 <= d < |Ring()| && 0 <= d + shift < |Ring()|
        ensures moved[d] == Ring()[d + shift]
      {
        RingShift(buffer.rows[..], buffer.top, -scrollOffset, shift, d);
      }
    }

    method ReadRow(row: int) returns (cells: Cells)
      requires Valid() && 0 <= row < display.height
      ensures cells == RowOf(row)
    {
      cells := buffer.ReadRow(row, -scrollOffset);
    }

    /** The line that a row is on shows a character in these columns. */
    method ShowColumns(line: int, start: int, end: int, ch: Char)
      requires display.Valid() && display.width > 0 && IsBase(ch)
      modifies display.operations
      ensures display.Valid()
      ensures forall d :: 0 <= d < display.height && d != line ==> display.Effective()[d] == old(display.Effective()[d])
      ensures ch.width == 1 ==> LinePainted(old(display.Effective()), display.Effective(), display.height,
                                            display.width, line,
                Fit(start, 0, display.width - 1), Fit(end, 0, display.width - 1), Show(display.palette, ch))
    {
      if ch.width == 1 {
        Show1(line, start, end, ch);
      } else {
        display.SetColumns(line, start, end, ch);
      }
    }

    /** __guac_terminal_set_columns: writes n characters to the display and the buffer. */
    method WriteColumns(row: int, start: int, end: int, ch: Char, ghost n: nat)
      requires Valid() && IsBase(ch) && 0 <= row < display.height && 0 <= start <= end + 1
      requires (n - 1) * ch.width <= end - start < n * ch.width
      modifies display.operations, buffer`length, buffer.rows
      ensures Valid()
      ensures Ring() == old(Ring())[row + scrollOffset := Overlaid(Padded(old(RowOf(row)), buffer.blank, end + 1),
                                                                   start, Tiles(ch, n))]
      ensures forall d :: 0 <= d < display.height && d != row + scrollOffset ==>
                display.Effective()[d] == old(display.Effective()[d])
      ensures ch.width == 1 ==> LinePainted(old(display.Effective()), display.Effective(), display.height,
                                            display.width, row + scrollOffset,
                Fit(start, 0, display.width - 1), Fit(end, 0, display.width - 1), Show(display.palette, ch))
    {
      ShowColumns(row + scrollOffset, start, end, ch);
      buffer.SetColumns(row, start, end, ch, n, -scrollOffset);
    }

    /** The part of __guac_terminal_force_break that is the same for both sides of the edge. */
    method Mend(row: int, startColumn: int, endColumn: int)
      requires Valid() && 0 <= row < display.height
      requires 0 <= startColumn <= endColumn < |RowOf(row)|
      modifies display.operations, buffer`length, buffer.rows
      ensures Valid() && Ring() == old(Ring())[row + scrollOffset := MendRun(old(RowOf(row)), startColumn, endColumn)]
      ensures forall d :: 0 <= d < display.height && d != row + scrollOffset ==>
                display.Effective()[d] == old(display.Effective()[d])
      ensures startColumn == endColumn && IsSingle(old(RowOf(row))[startColumn]) ==>
                display.Effective() == old(display.Effective())
    {
      var cells := ReadRow(row);
      var first := startColumn;
      if cells[first].value != CONTINUATION && 0 <= cells[first].width < endColumn - first + 1 {
        first := first + cells[first].width;
      }
      if cells[first].value == CONTINUATION || cells[first].width != endColumn - first + 1 {
        var cleared := Char(SPACE, cells[first].attributes, 1);
        WriteColumns(row, first, endColumn, cleared, endColumn - first + 1);
        ClearedIsOverlaid(cells, buffer.blank, first, endColumn);
      }
    }

    /** The left side of the edge. */
    method BreakLeftSide(row: int, edge: int)
      requires Valid() && 0 <= row < display.height && edge <= |RowOf(row)|
      modifies display.operations, buffer`length, buffer.rows
      ensures Valid() && Ring() == old(Ring())[row + scrollOffset := BreakLeft(old(RowOf(row)), edge)]
      ensures forall d :: 0 <= d < display.height && d != row + scrollOffset ==>
                display.Effective()[d] == old(display.Effective()[d])
      ensures AllSingle(old(RowOf(row))) ==> display.Effective() == old(display.Effective())
    {
      var cells := ReadRow(row);
      if edge > 0 {
        var startColumn := FindRunStart(cells, edge - 1);
        Mend(row, startColumn, edge - 1);
      } else {
        assert Ring()[row + scrollOffset := cells] == Ring();
      }
    }

    /** The right side of the edge. */
    method BreakRightSide(row: int, edge: int)
      requires Valid() && 0 <= row < display.height
      modifies display.operations, buffer`length, buffer.rows
      ensures Valid() && Ring() == old(Ring())[row + scrollOffset := BreakRight(old(RowOf(row)), edge)]
      ensures forall d :: 0 <= d < display.height && d != row + scrollOffset ==>
                display.Effective()[d] == old(display.Effective()[d])
      ensures AllSingle(old(RowOf(row))) ==> display.Effective() == old(display.Effective())
    {
      var cells := ReadRow(row);
      if edge >= 0 && edge < |cells| {
        var endColumn := FindRunEnd(cells, edge);
        Mend(row, edge, endColumn);
      }
    }

    /** __guac_terminal_force_break */
    method ForceBreakAt(row: int, edge: int)
      requires Valid() && 0 <= row < display.height && edge <= |RowOf(row)|
      modifies display.operations, buffer`length, buffer.rows
      ensures Valid() && Ring() == old(Ring())[row + scrollOffset := ForceBreak(old(RowOf(row)), edge)]
      ensures forall d :: 0 <= d < display.height && d != row + scrollOffset ==>
                display.Effective()[d] == old(display.Effective()[d])
      ensures AllSingle(old(RowOf(row))) ==> display.Effective() == old(display.Effective())
    {
      SingleStays(RowOf(row), edge);
      BreakLeftSide(row, edge);
      BreakRightSide(row, edge);
    }

    /** The line of the screen that this row of the buffer is on, if any, shows it. */
    ghost predicate RowIsShown(row: int)
      requires Valid() && 0 <= row < display.height
      reads this`scrollOffset, display, display.operations, buffer, buffer.rows
    {
      row + scrollOffset < display.height ==>
        RowShows(display.palette, buffer.blank, display.Effective()[row + scrollOffset], RowOf(row))
    }

    /** ... which leaves characters of one column alone. */
    method BreakAt(row: int, edge: int, ghost cells: Cells, ghost after: Cells)
      requires Valid() && 0 <= row < display.height && RowOf(row) == cells
      requires edge <= |cells| && after == ForceBreak(cells, edge)
      modifies display.operations, buffer`length, buffer.rows
      ensures Valid() && Ring() == old(Ring())[row + scrollOffset := after] && RowOf(row) == after
      ensures forall d :: 0 <= d < display.height && d != row + scrollOffset ==>
                display.Effective()[d] == old(display.Effective()[d])
      ensures AllSingle(cells) ==> display.Effective() == old(display.Effective()) && after == cells
    {
      SingleStays(cells, edge);
      ForceBreakAt(row, edge);
    }

    /** Both breaks, one after the other. */
    method BreakBoth(row: int, first: int, second: int, ghost cells: Cells, ghost broken: Cells, ghost after: Cells)
      requires Valid() && 0 <= row < display.height && RowOf(row) == cells
      requires first <= |cells| && second <= |cells| && broken == ForceBreak(cells, first)
      requires after == ForceBreak(broken, second)
      modifies display.operations, buffer`length, buffer.rows
      ensures Valid() && Ring() == old(Ring())[row + scrollOffset := after] && RowOf(row) == after
      ensures forall d :: 0 <= d < display.height && d != row + scrollOffset ==>
                display.Effective()[d] == old(display.Effective()[d])
      ensures AllSingle(cells) ==> display.Effective() == old(display.Effective()) && after == cells
    {
      ghost var was := Ring();
      BreakAt(row, first, cells, broken);
      ghost var between := Ring();
      BreakAt(row, second, broken, after);
      Overwritten(was, between, Ring(), row + scrollOffset, broken, after);
    }

    method BreakTwice(row: int, first: int, second: int)
      requires Valid() && 0 <= row < display.height
      requires 0 <= first <= second <= |RowOf(row)|
      modifies display.operations, buffer`length, buffer.rows
      ensures Valid() && Ring() == old(Ring())[row + scrollOffset := BrokenTwice(old(RowOf(row)), first, second)]
      ensures forall d :: 0 <= d < display.height && d != row + scrollOffset ==>
                display.Effective()[d] == old(display.Effective()[d])
      ensures AllSingle(old(RowOf(row))) ==> display.Effective() == old(display.Effective())
      ensures AllSingle(old(RowOf(row))) ==> RowOf(row) == old(RowOf(row))
    {
      ghost var cells := RowOf(row);
      BreakBoth(row, first, second, cells, ForceBreak(cells, first), BrokenTwice(cells, first, second));
    }

    /** Breaks at two edges: `after` is what these make of the row. */
    method BreakTo(row: int, firstEdge: int, secondEdge: int, ghost left: int, ghost right: int, ghost copied: Cells,
                   ghost after: Cells)
      requires Valid() && 0 <= row < display.height && RowOf(row) == copied && firstEdge == left && secondEdge == right
      requires 0 <= left <= right <= |copied| && BreaksTo(copied, left, right, after)
      modifies display.operations, buffer`length, buffer.rows
      ensures Valid() && Ring() == old(Ring())[row + scrollOffset := after] && RowOf(row) == after
      ensures forall d :: 0 <= d < display.height && d != row + scrollOffset ==>
                display.Effective()[d] == old(display.Effective()[d])
      ensures AllSingle(copied) ==> (RowIsShown(row) <==> old(RowIsShown(row)))
    {
      BrokenIsBroken(copied, left, right, after);
      SameBreaks(copied, firstEdge, secondEdge, left, right);
      BreakTwice(row, firstEdge, secondEdge);
    }

    /** Nothing is to be written, or else from a column of the screen on, without the visible cursor behind the last. */
    ghost predicate BeginsOnScreen(row: int, start: int, end: int)
      reads this, display
    {
      start <= end ==> start < display.width && (CursorIn(row) < display.width || end < display.width)
    }

    /** Characters of one column are to be written to a row of such characters. The screen shows the row,
        or all of it is overwritten. */
    ghost predicate WritesSingles(row: int, start: int, end: int, ch: Char)
      requires Valid() && 0 <= row < display.height
      reads this, display, display.operations, buffer, buffer.rows
    {
      && IsSingle(ch) && AllSingle(RowOf(row)) && start <= end && BeginsOnScreen(row, start, end)
      && (RowIsShown(row) || (start == 0 && display.width <= end + 1))
    }

    /** No character is to be written to a row of characters of one column that is shown, and shown it will be. */
    ghost predicate WritesNothing(row: int, start: int, end: int, ch: Char)
      requires Valid() && 0 <= row < display.height
      reads this`scrollOffset, display, display.operations, buffer, buffer.rows
    {
      IsSingle(ch) && AllSingle(RowOf(row)) && start == end + 1 && RowIsShown(row)
    }

    ghost predicate WillStay(row: int, start: int, ch: Char)
      requires Valid() && 0 <= row < display.height
      reads this`scrollOffset, display, display.operations, buffer, buffer.rows
    {
      row + scrollOffset < display.height ==>
        StaysShown(display.palette, buffer.blank, RowOf(row), display.width, start, ch)
    }

    /** __guac_terminal_set_columns again: the screen then shows the row, if anything is written. */
    method WriteSome(row: int, start: int, end: int, ch: Char, ghost n: nat)
      requires Valid() && IsBase(ch) && 0 <= row < display.height && 0 <= start <= end + 1
      requires (n - 1) * ch.width <= end - start < n * ch.width
      modifies display.operations, buffer`length, buffer.rows
      ensures Valid()
      ensures Ring() == old(Ring())[row + scrollOffset := Overlaid(Padded(old(RowOf(row)), buffer.blank, end + 1),
                                                                   start, Tiles(ch, n))]
      ensures forall d :: 0 <= d < display.height && d != row + scrollOffset ==>
                display.Effective()[d] == old(display.Effective()[d])
      ensures old(WritesSingles(row, start, end, ch)) ==> RowIsShown(row) && AllSingle(RowOf(row))
      ensures ch.width == 1 ==> LinePainted(old(display.Effective()), display.Effective(), display.height,
                                            display.width, row + scrollOffset,
                Fit(start, 0, display.width - 1), Fit(end, 0, display.width - 1), Show(display.palette, ch))
    {
      ghost var was, image, singles := RowOf(row), display.Effective(), WritesSingles(row, start, end, ch);
      WriteColumns(row, start, end, ch, n);
      if singles {
        SinglesWritten(display.palette, buffer.blank, image, display.Effective(), display.height, display.width,
                       row + scrollOffset, start, end, ch, n, was, RowOf(row));
      }
    }

    /** ... and otherwise if it stays. */
    method Write(row: int, start: int, end: int, ch: Char, ghost n: nat, ghost stays: bool)
      requires Valid() && IsBase(ch) && 0 <= row < display.height && 0 <= start <= end + 1
      requires (n - 1) * ch.width <= end - start < n * ch.width
      requires stays == WillStay(row, start, ch)
      modifies display.operations, buffer`length, buffer.rows
      ensures Valid()
      ensures Ring() == old(Ring())[row + scrollOffset := Overlaid(Padded(old(RowOf(row)), buffer.blank, end + 1),
                                                                   start, Tiles(ch, n))]
      ensures forall d :: 0 <= d < display.height && d != row + scrollOffset ==>
                display.Effective()[d] == old(display.Effective()[d])
      ensures old(WritesSingles(row, start, end, ch)) ==> RowIsShown(row) && AllSingle(RowOf(row))
      ensures old(WritesNothing(row, start, end, ch)) ==> (RowIsShown(row) <==> stays)
    {
      ghost var was, image := RowOf(row), display.Effective();
      WriteSome(row, start, end, ch, n);
      if old(WritesNothing(row, start, end, ch)) && row + scrollOffset < display.height {
        NothingOverlaid(was, buffer.blank, start, end, ch, n, RowOf(row));
        NothingWritten(display.palette, buffer.blank, image, display.Effective(), display.height, display.width,
                       row + scrollOffset, start, end, ch, was, RowOf(row));
      }
    }

    /** The column of the visible cursor, if it is in this row. */
    ghost function CursorIn(row: int): int
      reads this
    {
      if row == visibleCursorRow then visibleCursorCol else -1
    }

    /** Writes n characters, and the one under the visible cursor once more with the cursor on it. */
    method WriteShown(row: int, start: int, end: int, ch: Char, ghost n: nat, ghost stays: bool)
      requires Valid() && IsBase(ch) && 0 <= row < display.height
      requires 0 <= start <= end + 1 && end + 1 == start + n * ch.width && stays == WillStay(row, start, ch)
      modifies display.operations, buffer`length, buffer.rows
      ensures Valid()
      ensures Ring() == old(Ring())[row + scrollOffset := Shown(old(RowOf(row)), buffer.blank, start, ch, n,
                                                                CursorIn(row))]
      ensures forall d :: 0 <= d < display.height && d != row + scrollOffset ==>
                display.Effective()[d] == old(display.Effective()[d])
      ensures old(WritesSingles(row, start, end, ch)) ==> RowIsShown(row) && AllSingle(RowOf(row))
      ensures old(WritesNothing(row, start, end, ch)) ==> (RowIsShown(row) <==> stays)
    {
      ghost var ring, was := Ring(), RowOf(row);
      ghost var written := Written(was, buffer.blank, start, ch, n);
      CountedBy(n, ch.width, end - start);
      Write(row, start, end, ch, n, stays);
      WrittenIsOverlaid(was, buffer.blank, start, ch, n, end + 1);
      ghost var between := Ring();
      ghost var shown := ShowCursor(row, start, end, ch, n, was, written);
      Overwritten(ring, between, Ring(), row + scrollOffset, written, shown);
    }

    /** Writes the character under the visible cursor once more, if that is one of those written. */
    method ShowCursor(row: int, start: int, end: int, ch: Char, ghost n: nat, ghost was: Cells, ghost written: Cells)
      returns (ghost shown: Cells)
      requires Valid() && IsBase(ch) && 0 <= row < display.height && 0 <= start <= end + 1
      requires end + 1 == start + n * ch.width && RowOf(row) == written == Written(was, buffer.blank, start, ch, n)
      modifies display.operations, buffer`length, buffer.rows
      ensures Valid() && shown == Shown(was, buffer.blank, start, ch, n, CursorIn(row))
      ensures Ring() == old(Ring())[row + scrollOffset := shown] && RowOf(row) == shown
      ensures forall d :: 0 <= d < display.height && d != row + scrollOffset ==>
                display.Effective()[d] == old(display.Effective()[d])
      ensures start > end ==> (RowIsShown(row) <==> old(RowIsShown(row)))
      ensures && IsSingle(ch) && old(RowIsShown(row)) && AllSingle(written)
              && (CursorIn(row) < display.width || end < display.width) ==>
                RowIsShown(row) && AllSingle(shown)
    {
      shown := written;
      if row == visibleCursorRow && visibleCursorCol >= start && visibleCursorCol <= end {
        shown := Overlaid(written, visibleCursorCol, Tiles(WithCursor(ch), 1));
        assert Padded(written, buffer.blank, visibleCursorCol + 1) == written;
        Write(row, visibleCursorCol, visibleCursorCol, WithCursor(ch), 1,
              WillStay(row, visibleCursorCol, WithCursor(ch)));
      }
    }

    /** Writes characters and makes the breaks around them. */
    method WriteAndBreak(row: int, start: int, end: int, ch: Char, ghost n: nat, ghost edge: int, ghost shown: Cells,
                         ghost after: Cells, ghost stays: bool)
      requires Valid() && IsBase(ch) && 0 <= row < display.height && 0 <= start <= end + 1
      requires end + 1 == edge == start + n * ch.width
      requires shown == Shown(RowOf(row), buffer.blank, start, ch, n, CursorIn(row))
      requires BreaksTo(shown, start, edge, after)
      requires stays == WillStay(row, start, ch)
      modifies display.operations, buffer`length, buffer.rows
      ensures Valid() && Ring() == old(Ring())[row + scrollOffset := after] && RowOf(row) == after
      ensures forall d :: 0 <= d < display.height && d != row + scrollOffset ==>
                display.Effective()[d] == old(display.Effective()[d])
      ensures old(WritesSingles(row, start, end, ch)) ==> RowIsShown(row)
      ensures old(WritesNothing(row, start, end, ch)) ==> (RowIsShown(row) <==> stays)
    {
      ghost var was := Ring();
      WriteShown(row, start, end, ch, n, stays);
      ghost var between := Ring();
      BreakTo(row, start, end + 1, start, edge, shown, after);
      Overwritten(was, between, Ring(), row + scrollOffset, shown, after);
    }

    /** guac_terminal_set_columns, for a whole number of characters that end before column `edge`. */
    method SetColumns(row: int, start: int, end: int, ch: Char, ghost n: nat, ghost edge: int)
      requires Valid() && IsBase(ch) && 0 <= row < display.height && 0 <= start <= end + 1
      requires end + 1 == edge == start + n * ch.width
      modifies display.operations, buffer`length, buffer.rows
      ensures Valid() && RowOf(row) == SetRow(old(RowOf(row)), buffer.blank, start, edge, ch, n, CursorIn(row))
      ensures Ring() == old(Ring())[row + scrollOffset := RowOf(row)]
      ensures forall d :: 0 <= d < display.height && d != row + scrollOffset ==>
                display.Effective()[d] == old(display.Effective()[d])
      ensures old(WritesSingles(row, start, end, ch)) ==> RowIsShown(row)
      ensures old(WritesNothing(row, start, end, ch)) ==> (RowIsShown(row) <==> old(WillStay(row, start, ch)))
    {
      ghost var shown := Shown(RowOf(row), buffer.blank, start, ch, n, CursorIn(row));
      BrokenIsBroken(shown, start, edge, BrokenTwice(shown, start, edge));
      WriteAndBreak(row, start, end, ch, n, edge, shown, BrokenTwice(shown, start, edge), WillStay(row, start, ch));
    }

    /** The line that a row is on, if any, can take part in copying columns. */
    ghost predicate LineCanMove(row: int, offset: int)
      requires Valid()
      reads this`scrollOffset, display, display.operations, buffer, buffer.rows
    {
      row + scrollOffset < display.height ==> 0 < offset + display.width && offset < display.width
    }

    /** The line that a row is on will show the row, once columns have been copied in both. */
    ghost predicate WillShow(row: int, padded: Cells, start: int, end: int, offset: int)
      requires Valid() && 0 <= row < display.height
      reads this`scrollOffset, display, display.operations, buffer, buffer.rows
    {
      row + scrollOffset < display.height ==>
        ColumnsStillShow(display.palette, buffer.blank, display.Effective()[row + scrollOffset], padded, start, end,
                         offset)
    }

    /** Moves columns of the display, if its line is on the screen. */
    method MoveColumns(line: int, start: int, end: int, offset: int, ghost padded: Cells, ghost first: int,
                       ghost last: int, ghost copied: Cells)
      requires display.Valid() && display.width > 0 && display.height > 0 && 0 <= line && start <= end + 1
      requires line < display.height ==> 0 < offset + display.width && offset < display.width
      requires -|padded| < offset < |padded|
      requires first == Clamp(start, offset, |padded|) && last == Clamp(end, offset, |padded|)
      requires 0 <= first <= last + 1 && last < |padded| && 0 <= first + offset && last + offset < |padded|
      requires copied == Copied(padded, first, last, offset)
      modifies display.operations
      ensures display.Valid()
      ensures forall d :: 0 <= d < display.height && d != line ==> display.Effective()[d] == old(display.Effective()[d])
      ensures line < display.height ==>
                (RowShows(display.palette, buffer.blank, display.Effective()[line], copied)
                 <==> ColumnsStillShow(display.palette, buffer.blank, old(display.Effective()[line]), padded, start,
                                       end, offset))
    {
      if line < display.height {
        RangeCanMove(start, end, offset, display.width);
      }
      display.CopyColumns(line, start, end, offset);
      if line < display.height {
        OtherLinesStay(old(display.Effective()), display.Effective(), display.height, display.width, line,
                       Clamp(start, offset, display.width), Clamp(end, offset, display.width), offset);
        ColumnsAfter(display.palette, buffer.blank, old(display.Effective()), display.Effective(), display.height,
                     display.width,
                     line, padded, start, end, offset, first, last, copied);
      }
    }

    /** Moves columns on the display and in the buffer. */
    method ShiftColumns(row: int, start: int, end: int, offset: int, ghost padded: Cells, ghost first: int,
                        ghost last: int, ghost left: int, ghost right: int, ghost copied: Cells)
      requires Valid() && 0 <= row < display.height && LineCanMove(row, offset)
      requires IsCopy(RowOf(row), buffer.blank, start, end, offset, padded, first, last, left, right, copied)
      modifies display.operations, buffer.rows
      ensures Valid() && Ring() == old(Ring())[row + scrollOffset := copied] && RowOf(row) == copied
      ensures forall d :: 0 <= d < display.height && d != row + scrollOffset ==>
                display.Effective()[d] == old(display.Effective()[d])
      ensures RowIsShown(row) <==> old(WillShow(row, padded, start, end, offset))
    {
      MoveColumns(row + scrollOffset, start, end, offset, padded, first, last, copied);
      ghost var image := display.Effective();
      buffer.CopyColumns(row, start, end, offset, -scrollOffset, padded, first, last, right);
      assert display.Effective() == image;
    }

    /** ... and the visible cursor along with them. */
    method ShiftWithCursor(row: int, start: int, end: int, offset: int, ghost padded: Cells, ghost first: int,
                           ghost last: int, ghost left: int, ghost right: int, ghost copied: Cells,
                           ghost shows: bool)
      requires Valid() && 0 <= row < display.height && LineCanMove(row, offset)
      requires shows == WillShow(row, padded, start, end, offset)
      requires IsCopy(RowOf(row), buffer.blank, start, end, offset, padded, first, last, left, right, copied)
      modifies this`visibleCursorCol, display.operations, buffer.rows
      ensures Valid() && Ring() == old(Ring())[row + scrollOffset := copied] && RowOf(row) == copied
      ensures forall d :: 0 <= d < display.height && d != row + scrollOffset ==>
                display.Effective()[d] == old(display.Effective()[d])
      ensures RowIsShown(row) <==> shows
      ensures visibleCursorCol == if row == visibleCursorRow && start <= old(visibleCursorCol) <= end
                                  then old(visibleCursorCol) + offset else old(visibleCursorCol)
    {
      ShiftColumns(row, start, end, offset, padded, first, last, left, right, copied);
      ghost var image, ring := display.Effective(), Ring();
      if row == visibleCursorRow && visibleCursorCol >= start && visibleCursorCol <= end {
        visibleCursorCol := visibleCursorCol + offset;
      }
      assert display.Effective() == image && Ring() == ring;
    }

    /** The breaks around columns that have been copied. */
    method BreakCopied(row: int, firstEdge: int, secondEdge: int, ghost cells: Cells, ghost start: int,
                       ghost end: int, ghost offset: int, ghost padded: Cells, ghost first: int, ghost last: int,
                       ghost left: int, ghost right: int, ghost copied: Cells)
      returns (ghost after: Cells)
      requires Valid() && 0 <= row < display.height && RowOf(row) == copied && firstEdge == left && secondEdge == right
      requires IsCopy(cells, buffer.blank, start, end, offset, padded, first, last, left, right, copied)
      modifies display.operations, buffer`length, buffer.rows
      ensures Valid() && Ring() == old(Ring())[row + scrollOffset := after] && RowOf(row) == after
      ensures 0 <= left <= right <= |padded| && CopyOutcome(padded, start, end, copied, after, left, right)
      ensures forall d :: 0 <= d < display.height && d != row + scrollOffset ==>
                display.Effective()[d] == old(display.Effective()[d])
      ensures AllSingle(cells) ==> (RowIsShown(row) <==> old(RowIsShown(row)))
    {
      after := CopyBroken(cells, buffer.blank, start, end, offset, padded, first, last, left, right, copied);
      BrokenIsBroken(copied, left, right, after);
      BreakTo(row, firstEdge, secondEdge, left, right, copied, after);
    }

    /** guac_terminal_copy_columns, whether or not the row is as long as the range: it consists of whole
        characters exactly if the range fits, and is shown exactly if it will show. */
    method CopyColumns(row: int, start: int, end: int, offset: int, ghost padded: Cells, ghost first: int,
                       ghost last: int, ghost left: int, ghost right: int, ghost copied: Cells)
      returns (ghost after: Cells)
      requires Valid() && 0 <= row < display.height && LineCanMove(row, offset)
      requires IsCopy(RowOf(row), buffer.blank, start, end, offset, padded, first, last, left, right, copied)
      modifies this`visibleCursorCol, display.operations, buffer`length, buffer.rows
      ensures Valid() && Ring() == old(Ring())[row + scrollOffset := after] && RowOf(row) == after
      ensures 0 <= left <= right <= |padded| && CopyOutcome(padded, start, end, copied, after, left, right)
      ensures forall d :: 0 <= d < display.height && d != row + scrollOffset ==>
                display.Effective()[d] == old(display.Effective()[d])
      ensures old(AllSingle(RowOf(row))) ==> (RowIsShown(row) <==> old(WillShow(row, padded, start, end, offset)))
      ensures visibleCursorCol == if row == visibleCursorRow && start <= old(visibleCursorCol) <= end
                                  then old(visibleCursorCol) + offset else old(visibleCursorCol)
    {
      ghost var was, cells := Ring(), RowOf(row);
      ghost var shows := WillShow(row, padded, start, end, offset);
      ShiftWithCursor(row, start, end, offset, padded, first, last, left, right, copied, shows);
      ghost var between := Ring();
      after := BreakCopied(row, start + offset, end + offset + 1, cells, start, end, offset, padded, first, last, left,
                           right, copied);
      Overwritten(was, between, Ring(), row + scrollOffset, copied, after);
    }

    // Many operations in a row.

    /** guac_terminal_set_columns, as long as the row is of characters of one column. */
    method SetInRow(row: int, start: int, end: int, ch: Char, ghost n: nat, ghost stop: int, ghost cursor: int,
                    ghost was: Cells, ghost now: Cells)
      requires Valid() && 0 <= row < display.height && IsSingle(ch) && AllSingle(was) && was == RowOf(row)
      requires 0 <= start <= end + 1 && BeginsOnScreen(row, start, end)
      requires RowIsShown(row) || (start == 0 && display.width <= end + 1)
      requires stop == end + 1 == start + n * ch.width && cursor == CursorIn(row)
      requires now == SetRow(was, buffer.blank, start, stop, ch, n, cursor)
      modifies display.operations, buffer`length, buffer.rows
      ensures Valid() && Ring() == old(Ring())[row + scrollOffset := now] && RowOf(row) == now
      ensures RowIsShown(row) <==> start <= end || old(WillStay(row, start, ch))
      ensures forall d :: 0 <= d < display.height && d != row + scrollOffset ==>
                display.Effective()[d] == old(display.Effective()[d])
    {
      SetColumns(row, start, end, ch, n, stop);
    }

    /** ... and so are all others; nothing may be written, even right behind the last column. */
    method SetSingleColumns(row: int, start: int, end: int, ch: Char)
      requires Valid() && AllDisplayable() && 0 <= row < display.height && IsSingle(ch)
      requires 0 <= start <= end + 1 <= edge && BeginsOnScreen(row, start, end)
      requires RowIsShown(row) || (start == 0 && display.width <= end + 1)
      modifies display.operations, buffer`length, buffer.rows
      ensures Valid() && AllDisplayable() && Ring() == old(Ring())[row + scrollOffset := RowOf(row)]
      ensures RowIsShown(row) <==> start <= end || old(WillStay(row, start, ch))
      ensures Replaced(old(RowOf(row)), RowOf(row), buffer.blank, start, end, ch, CursorIn(row))
      ensures forall d :: 0 <= d < display.height && d != row + scrollOffset ==>
                display.Effective()[d] == old(display.Effective()[d])
    {
      ghost var was, n, stop, cursor := RowOf(row), end - start + 1, end + 1, CursorIn(row);
      ghost var now, after := WrittenRing(Ring(), row + scrollOffset, was, buffer.blank, start, end, stop, ch, n,
                                          cursor, edge);
      SetInRow(row, start, end, ch, n, stop, cursor, was, now);
      assert Ring() == after;
    }

    /** ... and the screen shows the view: it still does exactly if anything is written, or the row stays shown. */
    method SetVisible(row: int, start: int, end: int, ch: Char)
      requires Valid() && AllDisplayable() && ViewShows() && 0 <= row < display.height && IsSingle(ch)
      requires 0 <= start <= end + 1 <= edge && BeginsOnScreen(row, start, end)
      modifies display.operations, buffer`length, buffer.rows
      ensures Valid() && AllDisplayable() && Ring() == old(Ring())[row + scrollOffset := RowOf(row)]
      ensures ViewShows() <==> start <= end || old(WillStay(row, start, ch))
      ensures Replaced(old(RowOf(row)), RowOf(row), buffer.blank, start, end, ch, CursorIn(row))
    {
      ghost var was, before, line, h := display.Effective(), Ring(), row + scrollOffset, display.height;
      SetSingleColumns(row, start, end, ch);
      if RowIsShown(row) {
        OneLine(display.palette, buffer.blank, was, display.Effective(), before, Ring(), line, h, h, h);
      }
    }

    /** A run that fails: erasing from behind the last column to the end of the line, as CSI K does once a line has
        been filled, blanks the last character on the screen, of which the buffer knows nothing. */
    method EraseBehindLast(row: int, blank: Char)
      requires Valid() && AllDisplayable() && ViewShows() && 0 <= row && row + scrollOffset < display.height
      requires IsSingle(blank)
      requires !Shows(display.palette, buffer.blank, Show(display.palette, blank), RowOf(row), display.width - 1)
      modifies display.operations, buffer`length, buffer.rows
      ensures Valid() && !ViewShows()
    {
      SetVisible(row, display.width, display.width - 1, blank);
    }

    /** guac_terminal_clear_columns for a whole row. */
    method ClearRow(row: int, blank: Char)
      requires Valid() && AllDisplayable() && 0 <= row < display.height
      requires IsSingle(blank)
      modifies display.operations, buffer`length, buffer.rows
      ensures Valid() && AllDisplayable() && RowIsShown(row)
      ensures Wiped(RowOf(row), blank, display.width) && Ring() == old(Ring())[row + scrollOffset := RowOf(row)]
      ensures forall d :: 0 <= d < display.height && d != row + scrollOffset ==>
                display.Effective()[d] == old(display.Effective()[d])
    {
      SetSingleColumns(row, 0, display.width - 1, blank);
    }

    /** guac_terminal_clear_range for whole rows: these are cleared and shown, and the others are still there. */
    method ClearRows(startRow: int, endRow: int, blank: Char, ghost lo: int, ghost hi: int)
      requires Valid() && AllDisplayable() && 0 <= startRow <= endRow + 1 <= display.height && IsSingle(blank)
      requires lo == startRow + scrollOffset && hi == endRow + scrollOffset
      modifies display.operations, buffer`length, buffer.rows
      ensures Valid() && AllDisplayable()
      ensures RowsWiped(old(Ring()), Ring(), lo, hi, blank, display.width)
      ensures ImageShows(display.palette, buffer.blank, display.Effective(), Ring(), lo, hi + 1)
      ensures forall d :: 0 <= d < display.height && !(lo <= d <= hi) ==>
                display.Effective()[d] == old(display.Effective()[d])
    {
      ghost var ring, line := Ring(), lo;
      var row := startRow;
      while row <= endRow
        invariant startRow <= row <= endRow + 1 && line == row + scrollOffset
        invariant Valid() && AllDisplayable() && RowsWiped(ring, Ring(), lo, line - 1, blank, display.width)
        invariant ImageShows(display.palette, buffer.blank, display.Effective(), Ring(), lo, line)
        invariant forall d :: 0 <= d < display.height && !(lo <= d <= hi) ==>
                  display.Effective()[d] == old(display.Effective()[d])
      {
        ClearNext(row, blank, ring, lo, line);
        line := line + 1;
        row := row + 1;
      }
    }

    method ClearNext(row: int, blank: Char, ghost ring: seq<Cells>, ghost lo: int, ghost line: int)
      requires Valid() && AllDisplayable() && 0 <= row < display.height && IsSingle(blank)
      requires 0 <= lo <= line == row + scrollOffset
      requires RowsWiped(ring, Ring(), lo, line - 1, blank, display.width)
      requires ImageShows(display.palette, buffer.blank, display.Effective(), Ring(), lo, line)
      modifies display.operations, buffer`length, buffer.rows
      ensures Valid() && AllDisplayable() && RowsWiped(ring, Ring(), lo, line, blank, display.width)
      ensures ImageShows(display.palette, buffer.blank, display.Effective(), Ring(), lo, line + 1)
      ensures forall d :: 0 <= d < display.height && d != line ==> display.Effective()[d] == old(display.Effective()[d])
    {
      ghost var was, before := display.Effective(), Ring();
      ClearRow(row, blank);
      OneRowWiped(ring, before, Ring(), lo, line, blank, display.width);
      OneMoreLine(display.palette, buffer.blank, was, display.Effective(), before, Ring(), lo, line);
    }

    /** Moves the lines of the display that a range stands for once it has been fitted. */
    method ShiftLines(lo: int, hi: int, offset: int)
      requires display.Valid() && display.width > 0 && display.height > 0 && CanMove(lo, hi, offset, display.height)
      modifies display.operations
      ensures display.Valid()
      ensures display.Effective() == CopiedLines(old(display.Effective()), lo, hi, offset)
    {
      ghost var was, h := display.Effective(), display.height;
      display.CopyRows(lo, hi, offset);
      LinesMovedTo(was, display.Effective(), h, display.width, lo, hi, offset);
    }

    /** What guac_terminal_copy_rows asks of the rows from start to end, which are rows lo to hi of the ring. */
    ghost predicate CanCopyRows(startRow: int, endRow: int, offset: int, lo: int, hi: int)
      requires Valid()
      reads this, display, display.operations, buffer, buffer.rows
    {
      && lo == startRow + scrollOffset && hi == endRow + scrollOffset && CanMove(lo, hi, offset, display.height)
      && (lo <= hi ==> 0 <= lo && 0 <= lo + offset && hi < |Ring()| && hi + offset < |Ring()|)
    }

    /** Moves rows in the buffer. */
    method ShiftRows(startRow: int, endRow: int, offset: int, ghost lo: int, ghost hi: int)
      requires Valid() && AllDisplayable() && CanCopyRows(startRow, endRow, offset, lo, hi)
      modifies buffer.rows
      ensures Valid() && AllDisplayable() && RowsCopied(old(Ring()), Ring(), lo, hi, offset)
    {
      ghost var before := Ring();
      buffer.CopyRows(startRow, endRow, offset, -scrollOffset, lo, hi);
      CopiedDisplayable(buffer.blank, before, Ring(), lo, hi, offset, edge);
    }

    /** guac_terminal_copy_rows, whether or not all of the rows are on the screen. */
    method CopyRows(startRow: int, endRow: int, offset: int, ghost lo: int, ghost hi: int)
      requires Valid() && AllDisplayable() && CanCopyRows(startRow, endRow, offset, lo, hi)
      modifies this`visibleCursorRow, display.operations, buffer.rows
      ensures Valid() && AllDisplayable() && RowsCopied(old(Ring()), Ring(), lo, hi, offset)
      ensures display.Effective() == CopiedLines(old(display.Effective()), lo, hi, offset)
      ensures visibleCursorRow
           == old(visibleCursorRow) + if startRow <= old(visibleCursorRow) <= endRow then offset else 0
    {
      ShiftLines(startRow + scrollOffset, endRow + scrollOffset, offset);
      ShiftRows(startRow, endRow, offset, lo, hi);
      if startRow <= visibleCursorRow <= endRow {
        visibleCursorRow := visibleCursorRow + offset;
      }
    }

    /** Advances the ring. */
    method AdvanceRing(amount: int, ghost count: int, ghost hi: int)
      requires Valid() && AllDisplayable() && 0 < amount <= |Ring()|
      requires count == |Ring()| - amount && hi == |Ring()| - 1
      modifies buffer
      ensures Valid() && AllDisplayable() && Relocated(old(Ring()), Ring(), count, amount, hi, -amount)
    {
      ghost var before := Ring();
      ghost var moved := ShiftedRing(amount, scrollOffset - amount);
      buffer.Advance(amount, -scrollOffset);
      assert -scrollOffset + amount == -(scrollOffset - amount);
      assert Ring() == moved;
      RingAdvanced(before, moved, amount);
    }

    /** Scrolling the whole screen: the ring is advanced, and the lines moved as if the view were at the
        end of the buffer. */
    method AdvanceRows(endRow: int, amount: int, ghost count: int, ghost lo: int, ghost hi: int)
      requires Valid() && AllDisplayable() && endRow + 1 == display.height && 0 < amount <= endRow
      requires count == |Ring()| - amount && hi == |Ring()| - 1
      requires lo == amount && CanMove(lo, hi, -amount, display.height) && CanMove(lo, endRow, -amount, display.height)
      requires CopiedLines(display.Effective(), lo, endRow, -amount)
          == CopiedLines(display.Effective(), lo, hi, -amount)
      modifies display.operations, buffer
      ensures Valid() && AllDisplayable() && Relocated(old(Ring()), Ring(), count, lo, hi, -amount)
      ensures display.Effective() == CopiedLines(old(display.Effective()), lo, hi, -amount)
    {
      ShiftLines(amount, endRow, -amount);
      ghost var now := display.Effective();
      AdvanceRing(amount, count, hi);
      assert now == display.Effective();
    }

    /** ... and the visible cursor along with them. */
    method RaiseScreen(endRow: int, amount: int, ghost count: int, ghost lo: int, ghost hi: int)
      requires Valid() && AllDisplayable() && endRow + 1 == display.height && 0 < amount <= endRow
      requires count == |Ring()| - amount && hi == |Ring()| - 1
      requires lo == amount && CanMove(lo, hi, -amount, display.height) && CanMove(lo, endRow, -amount, display.height)
      requires CopiedLines(display.Effective(), lo, endRow, -amount)
          == CopiedLines(display.Effective(), lo, hi, -amount)
      modifies this`visibleCursorRow, display.operations, buffer
      ensures Valid() && AllDisplayable() && Relocated(old(Ring()), Ring(), count, lo, hi, -amount)
      ensures display.Effective() == CopiedLines(old(display.Effective()), lo, hi, -amount)
      ensures visibleCursorRow == old(visibleCursorRow) - if 0 <= old(visibleCursorRow) <= endRow then amount else 0
    {
      AdvanceRows(endRow, amount, count, lo, hi);
      if 0 <= visibleCursorRow <= endRow {
        visibleCursorRow := visibleCursorRow - amount;
      }
    }

    /** What moving rows up asks, whether it is by copying them or by advancing the ring. */
    ghost predicate CanRaiseRows(startRow: int, endRow: int, amount: int, count: int, lo: int, hi: int)
      requires Valid()
      reads this, display, display.operations, buffer, buffer.rows
    {
      && CanMove(lo, hi, -amount, display.height)
      && if startRow == 0 && endRow == display.height - 1 then
           && 0 < amount <= endRow && lo == amount && count == |Ring()| - amount && hi == |Ring()| - 1
           && CanMove(lo, endRow, -amount, display.height)
           && CopiedLines(display.Effective(), lo, endRow, -amount) == CopiedLines(display.Effective(), lo, hi, -amount)
         else
           count == |Ring()| && CanCopyRows(startRow + amount, endRow, -amount, lo, hi)
    }

    lemma ReadyToRaise(startRow: int, endRow: int, amount: int, count: int, lo: int, hi: int)
      requires Valid() && CanRaise(startRow, endRow, amount, display.height, scrollOffset)
      requires Raised(startRow, endRow, amount, display.height, scrollOffset, |Ring()|, count, lo, hi)
      ensures CanRaiseRows(startRow, endRow, amount, count, lo, hi)
    {
      RaisedAlike(startRow, endRow, amount, display.height, scrollOffset, |Ring()|, count, lo, hi);
      if startRow == 0 && endRow == display.height - 1 {
        SameLines(display.Effective(), lo, endRow, hi, -amount);
      }
    }

    /** Moves up the rows that stay. */
    method RaiseRows(startRow: int, endRow: int, amount: int, ghost count: int, ghost lo: int, ghost hi: int)
      requires Valid() && AllDisplayable() && CanRaiseRows(startRow, endRow, amount, count, lo, hi)
      modifies this`visibleCursorRow, display.operations, buffer, buffer.rows
      ensures Valid() && AllDisplayable() && Relocated(old(Ring()), Ring(), count, lo, hi, -amount)
      ensures display.Effective() == CopiedLines(old(display.Effective()), lo, hi, -amount)
      ensures visibleCursorRow
           == old(visibleCursorRow) - MovesUp(old(visibleCursorRow), startRow, endRow, amount, display.height)
    {
      if startRow == 0 && endRow == display.height - 1 {
        RaiseScreen(endRow, amount, count, lo, hi);
      } else {
        CopyRows(startRow + amount, endRow, -amount, lo, hi);
      }
    }

    /** Clears the rows that others have been copied from: which rows the buffer then holds, and exactly when
        the screen shows them. */
    method ClearScrolled(startRow: int, endRow: int, blank: Char, ghost was: Grid<Look>, ghost before: seq<Cells>,
                         ghost count: int, ghost lo: int, ghost hi: int, ghost offset: int, ghost first: int,
                         ghost last: int)
      requires Valid() && AllDisplayable() && 0 <= startRow <= endRow < display.height && IsSingle(blank)
      requires first == startRow + scrollOffset && last == endRow + scrollOffset
      requires |was| == display.height <= |before| && CanMove(lo, hi, offset, display.height)
      requires display.Effective() == CopiedLines(was, lo, hi, offset)
      requires Relocated(before, Ring(), count, lo, hi, offset)
      requires RestKnown(display.height, count, first, last)
      modifies display.operations, buffer`length, buffer.rows
      ensures Valid() && AllDisplayable()
      ensures Scrolled(before, Ring(), count, lo, hi, offset, first, last, blank, display.width)
      ensures ViewShows() <==> StillShows(display.palette, buffer.blank, was, before, lo, hi, offset, first, last)
    {
      ghost var copied, between := display.Effective(), Ring();
      ClearRows(startRow, endRow, blank, first, last);
      ViewAfter(display.palette, buffer.blank, was, copied, display.Effective(), before, between, Ring(), count,
                lo, hi, offset, first, last, blank, display.width);
      ScrolledRows(before, between, Ring(), count, lo, hi, offset, first, last, blank, display.width);
    }

    /** Moves up the rows that stay, and clears those that these have been moved from. */
    method RaiseAndClear(startRow: int, endRow: int, amount: int, blank: Char, ghost count: int, ghost lo: int,
                         ghost hi: int, ghost first: int, ghost last: int)
      requires Valid() && AllDisplayable() && IsSingle(blank)
      requires CanRaise(startRow, endRow, amount, display.height, scrollOffset)
      requires Raised(startRow, endRow, amount, display.height, scrollOffset, |Ring()|, count, lo, hi)
      requires first == endRow - amount + 1 + scrollOffset && last == endRow + scrollOffset
      modifies this`visibleCursorRow, display.operations, buffer, buffer.rows
      ensures Valid() && AllDisplayable()
      ensures Scrolled(old(Ring()), Ring(), count, lo, hi, -amount, first, last, blank, display.width)
      ensures ViewShows() <==> StillShows(display.palette, buffer.blank, old(display.Effective()), old(Ring()),
                                          lo, hi, -amount, first, last)
      ensures visibleCursorRow
           == old(visibleCursorRow) - MovesUp(old(visibleCursorRow), startRow, endRow, amount, display.height)
    {
      ghost var was, before := display.Effective(), Ring();
      RaisedAlike(startRow, endRow, amount, display.height, scrollOffset, |before|, count, lo, hi);
      RestIsKnown(startRow, endRow, amount, display.height, scrollOffset, |before|, count, lo, hi, first, last);
      ReadyToRaise(startRow, endRow, amount, count, lo, hi);
      RaiseRows(startRow, endRow, amount, count, lo, hi);
      ClearScrolled(endRow - amount + 1, endRow, blank, was, before, count, lo, hi, -amount, first, last);
    }

    /** guac_terminal_scroll_up, for whatever part of the buffer is shown: which rows the buffer then holds, and
        exactly when the screen shows them. */
    method ScrollUp(startRow: int, endRow: int, amount: int, blank: Char, ghost count: int, ghost lo: int,
                    ghost hi: int, ghost first: int, ghost last: int)
      requires Valid() && AllDisplayable() && IsSingle(blank)
      requires CanRaise(startRow, endRow, amount, display.height, scrollOffset)
      requires Raised(startRow, endRow, amount, display.height, scrollOffset, |Ring()|, count, lo, hi)
      requires first == endRow - amount + 1 + scrollOffset && last == endRow + scrollOffset
      modifies this`visibleCursorRow, display.operations, buffer, buffer.rows
      ensures Valid() && AllDisplayable()
      ensures Scrolled(old(Ring()), Ring(), count, lo, hi, -amount, first, last, blank, display.width)
      ensures ViewShows() <==> StillShows(display.palette, buffer.blank, old(display.Effective()), old(Ring()),
                                          lo, hi, -amount, first, last)
      ensures old(ViewShows()) && UpKeepsView(startRow, endRow, amount, display.height, scrollOffset) ==> ViewShows()
      ensures visibleCursorRow
           == old(visibleCursorRow) - MovesUp(old(visibleCursorRow), startRow, endRow, amount, display.height)
    {
      UpShows(display.palette, buffer.blank, display.Effective(), Ring(), startRow, endRow, amount, scrollOffset,
              count, lo, hi, first, last);
      RaiseAndClear(startRow, endRow, amount, blank, count, lo, hi, first, last);
    }

    /** Moves down the rows that stay, and clears those that these have been moved from. */
    method LowerAndClear(startRow: int, endRow: int, amount: int, blank: Char, ghost lo: int, ghost hi: int,
                         ghost first: int, ghost last: int)
      requires Valid() && AllDisplayable() && IsSingle(blank)
      requires CanLower(startRow, endRow, amount, display.height, scrollOffset)
      requires lo == startRow + scrollOffset && hi == endRow - amount + scrollOffset
      requires first == startRow + scrollOffset && last == startRow + amount - 1 + scrollOffset
      modifies this`visibleCursorRow, display.operations, buffer`length, buffer.rows
      ensures Valid() && AllDisplayable()
      ensures Scrolled(old(Ring()), Ring(), |Ring()|, lo, hi, amount, first, last, blank, display.width)
      ensures ViewShows() <==> StillShows(display.palette, buffer.blank, old(display.Effective()), old(Ring()),
                                          lo, hi, amount, first, last)
      ensures visibleCursorRow == old(visibleCursorRow)
                                  + if startRow <= old(visibleCursorRow) <= endRow - amount then amount else 0
    {
      ghost var was, before := display.Effective(), Ring();
      CopyRows(startRow, endRow - amount, amount, lo, hi);
      ClearScrolled(startRow, startRow + amount - 1, blank, was, before, |before|, lo, hi, amount, first, last);
    }

    /** guac_terminal_scroll_down, likewise. */
    method ScrollDown(startRow: int, endRow: int, amount: int, blank: Char, ghost lo: int, ghost hi: int,
                      ghost first: int, ghost last: int)
      requires Valid() && AllDisplayable() && IsSingle(blank)
      requires CanLower(startRow, endRow, amount, display.height, scrollOffset)
      requires lo == startRow + scrollOffset && hi == endRow - amount + scrollOffset
      requires first == startRow + scrollOffset && last == startRow + amount - 1 + scrollOffset
      modifies this`visibleCursorRow, display.operations, buffer`length, buffer.rows
      ensures Valid() && AllDisplayable()
      ensures Scrolled(old(Ring()), Ring(), |Ring()|, lo, hi, amount, first, last, blank, display.width)
      ensures ViewShows() <==> StillShows(display.palette, buffer.blank, old(display.Effective()), old(Ring()),
                                          lo, hi, amount, first, last)
      ensures old(ViewShows()) && DownKeepsView(startRow, endRow, amount, display.height, scrollOffset) ==> ViewShows()
      ensures visibleCursorRow == old(visibleCursorRow)
                                  + if startRow <= old(visibleCursorRow) <= endRow - amount then amount else 0
    {
      DownShows(display.palette, buffer.blank, display.Effective(), Ring(), startRow, endRow, amount, scrollOffset,
                lo, hi, first, last);
      LowerAndClear(startRow, endRow, amount, blank, lo, hi, first, last);
    }

    /** Deleting one line on the last row of the screen, as CSI M does it there, copies that line over the one
        before it, of which the buffer knows nothing. */
    method DeleteLastLine(blank: Char)
      requires Valid() && AllDisplayable() && ViewShows() && IsSingle(blank)
      requires scrollOffset == 0 && display.height > 1
      requires !RowShows(display.palette, buffer.blank, display.Effective()[display.height - 1],
                         RowOf(display.height - 2))
      modifies this`visibleCursorRow, display.operations, buffer, buffer.rows
      ensures Valid() && !ViewShows()
    {
      ghost var h, n := display.height, |Ring()|;
      ghost var image, ring := display.Effective(), Ring();
      ScrollUp(display.height - 1, display.height - 1, 1, blank, n, h, h - 1, h - 1, h - 1);
      assert FittedOrigin(h - 2, h, h - 1, -1, h) == h - 1 && Origin(h - 2, h, h - 1, -1) == h - 2;
      assert !LineShows(display.palette, buffer.blank, image, ring, h - 1, h - 2);
    }

    /** Inserting one line on the first row of the screen, if that is all of the region that scrolls, copies
        it over the second. */
    method InsertFirstLine(blank: Char)
      requires Valid() && AllDisplayable() && ViewShows() && IsSingle(blank)
      requires scrollOffset == 0 && display.height > 1
      requires !RowShows(display.palette, buffer.blank, display.Effective()[0], RowOf(1))
      modifies this`visibleCursorRow, display.operations, buffer`length, buffer.rows
      ensures Valid() && !ViewShows()
    {
      ghost var h := display.height;
      ghost var image, ring := display.Effective(), Ring();
      ScrollDown(0, 0, 1, blank, 0, -1, 0, 0);
      assert FittedOrigin(1, 0, -1, 1, h) == 0 && Origin(1, 0, -1, 1) == 1;
      assert !LineShows(display.palette, buffer.blank, image, ring, 0, 1);
    }
  }
}
