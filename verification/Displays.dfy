/** Pending operations of the visible screen area and how they are flushed: src/terminal/display.c.
    The screen is kept at the granularity of character cells. */
module Displays {
  import opened Grids
  import opened TerminalTypes
  import opened CopyPlans

  datatype Operation = Nop | CopyOf(row: int, col: int) | SetTo(character: Char)

  /** A blank is to be drawn. */
  predicate IsBlank(op: Operation) {
    op.SetTo? && !HasGlyph(op.character.value)
  }

  function SourceOf(op: Operation): Source {
    if op.CopyOf? then From(op.row, op.col) else Keep
  }

  ghost function Sources(ops: Grid<Operation>, h: nat, w: nat): (g: Grid<Source>)
    requires IsGrid(ops, h, w)
    ensures IsGrid(g, h, w)
    ensures forall r, c :: 0 <= r < h && 0 <= c < w ==> g[r][c] == SourceOf(ops[r][c])
  {
    seq(h, r requires 0 <= r < h => seq(w, c requires 0 <= c < w => SourceOf(ops[r][c])))
  }

  /** What a cell with this operation is to show. */
  ghost function Outcome(op: Operation, screen: Grid<Look>, r: int, c: int, palette: Palette): Look
    requires 0 <= r < |screen| && 0 <= c < |screen[r]|
    requires op.CopyOf? ==> 0 <= op.row < |screen| && 0 <= op.col < |screen[op.row]|
  {
    match op
    case Nop => screen[r][c]
    case CopyOf(row, col) => screen[row][col]
    case SetTo(ch) => Show(palette, ch)
  }

  /** The image `was` with rows lo to hi and columns left to right shown at an offset as well. */
  ghost predicate Moved(was: Grid<Look>, now: Grid<Look>, h: nat, w: nat, lo: int, hi: int, left: int, right: int,
                        down: int, across: int) {
    && IsGrid(was, h, w) && IsGrid(now, h, w)
    && 0 <= lo && hi < h && 0 <= left && right < w
    && (forall r, c {:trigger was[r][c]} ::
          lo <= r <= hi && left <= c <= right && 0 <= r + down < h && 0 <= c + across < w ==>
          now[r + down][c + across] == was[r][c])
    && (forall r, c {:trigger now[r][c]} ::
          0 <= r < h && 0 <= c < w && !(lo <= r - down <= hi && left <= c - across <= right) ==>
          now[r][c] == was[r][c])
  }

  /** The first row (or column) left of a range starting at `start` once the range and the range
      it is moved to have been fitted into the screen; likewise for the last. */
  function Clamp(start: int, offset: int, size: int): int {
    Fit(Fit(start, 0, size - 1) + offset, 0, size - 1) - offset
  }

  /** Row r is in the range, and on the screen both before and after it is moved. */
  predicate Movable(r: int, start: int, end: int, offset: int, size: int) {
    start <= r <= end && 0 <= r < size && 0 <= r + offset < size
  }

  /** Fitting finds a row of the screen, for whatever row, exactly if the offset is smaller than the
      screen; otherwise the code uses rows that do not exist. */
  lemma ClampInRangeIff(start: int, offset: int, size: int)
    requires size > 0
    ensures 0 <= Clamp(start, offset, size) < size <==> -size < offset < size
  {
  }

  /** The rows from start to end can be moved by this offset: the fitted range is not the wrong way
      round, which would be a negative number of rows to move. */
  predicate CanMove(start: int, end: int, offset: int, size: int) {
    -size < offset < size && Clamp(start, offset, size) <= Clamp(end, offset, size) + 1
  }

  /** Fitting keeps the movable rows if there are any, and otherwise leaves none, or one row that is not
      in the range at all. */
  lemma ClampExact(start: int, end: int, offset: int, size: int)
    requires size > 0 && CanMove(start, end, offset, size)
    ensures var lo, hi := Clamp(start, offset, size), Clamp(end, offset, size);
            && 0 <= lo <= hi + 1 && lo < size && hi < size
            && 0 <= lo + offset < size && 0 <= hi + offset < size
            && if start <= end && start < size && end >= 0 && start + offset < size && end + offset >= 0
               then forall r :: Movable(r, start, end, offset, size) <==> lo <= r <= hi
               else lo == hi + 1 || (lo == hi && !(start <= lo <= end))
    ensures start <= end ==> Clamp(start, offset, size) <= Clamp(end, offset, size)
  {
  }

  /** Every range can be moved by less than the size of the screen, even if it is empty, but not if it is
      the wrong way round. */
  lemma RangeCanMove(start: int, end: int, offset: int, size: int)
    requires size > 0 && start <= end + 1 && -size < offset < size
    ensures CanMove(start, end, offset, size)
  {
  }

  /** The image `was` with every step-th column from `first` to `last` of a row showing `look`. */
  ghost predicate Plotted(was: Grid<Look>, now: Grid<Look>, h: nat, w: nat, row: int, first: int, last: int,
                          step: int, look: Look)
    requires step > 0
  {
    && IsGrid(was, h, w) && IsGrid(now, h, w)
    && forall r, c {:trigger now[r][c]} :: 0 <= r < h && 0 <= c < w ==>
         now[r][c] == if r == row && first <= c <= last && Reached(first, c, step) then look else was[r][c]
  }

  /** Every cell that is to be copied comes from below in its own column. */
  ghost predicate Upwards(ops: Grid<Operation>, h: nat, w: nat)
    requires IsGrid(ops, h, w)
  {
    forall r, c :: 0 <= r < h && 0 <= c < w && ops[r][c].CopyOf? ==> ops[r][c].col == c && ops[r][c].row >= r
  }

  /** Only these characters are still to be drawn. */
  ghost predicate OnlyDraws(ops: Grid<Operation>, chars: set<Char>, h: nat, w: nat)
    requires IsGrid(ops, h, w)
  {
    forall r, c :: 0 <= r < h && 0 <= c < w && ops[r][c].SetTo? ==> ops[r][c].character in chars
  }

  class Display {
    const width: nat
    const height: nat
    const operations: array2<Operation>     // operations[row, column]
    var palette: Palette
    ghost var screen: Grid<Look>

    ghost predicate Sized() {
      operations.Length0 == height && operations.Length1 == width
    }

    ghost predicate Valid()
      reads this, operations
    {
      && Sized() && IsGrid(screen, height, width) && palette.WellIndexed()
      && forall r, c :: 0 <= r < height && 0 <= c < width && operations[r, c].CopyOf? ==>
           0 <= operations[r, c].row < height && 0 <= operations[r, c].col < width
    }

    ghost function Operations(): Grid<Operation>
      reads operations
    {
      Snapshot(operations)
    }

    /** The screen that the pending operations stand for. */
    ghost function Effective(): (g: Grid<Look>)
      requires Valid()
      reads this, operations
      ensures IsGrid(g, height, width)
      ensures forall r, c :: 0 <= r < height && 0 <= c < width ==>
                g[r][c] == Outcome(operations[r, c], screen, r, c, palette)
    {
      seq(height, r requires 0 <= r < height reads this, operations requires Valid() =>
        seq(width, c requires 0 <= c < width reads this, operations requires Valid() =>
          Outcome(operations[r, c], screen, r, c, palette)))
    }

    ghost predicate CopiesUpwards()
      requires Sized()
      reads operations
    {
      Upwards(Operations(), height, width)
    }

    ghost predicate DrawsOnly(chars: set<Char>)
      requires Sized()
      reads operations
    {
      OnlyDraws(Operations(), chars, height, width)
    }

    /** Moves a rectangle of operations, which may overlap its destination, and turns those that
        were NOP into copies of their old place. */
    method MoveOperations(lo: int, hi: int, left: int, right: int, down: int, across: int)
      requires Valid()
      requires 0 <= lo && hi < height && 0 <= left && right < width
      requires 0 <= lo + down && hi + down < height && 0 <= left + across && right + across < width
      modifies operations
      ensures Valid()
      ensures Moved(old(Effective()), Effective(), height, width, lo, hi, left, right, down, across)
      ensures forall a, b :: 0 <= a < height && 0 <= b < width ==>
                operations[a, b] == Shifted(old(Operations()), a, b, lo, hi, left, right, down, across, hi + 1, left)
      ensures across == 0 && down <= 0 && old(CopiesUpwards()) ==> CopiesUpwards()
      ensures forall chars :: old(DrawsOnly(chars)) ==> DrawsOnly(chars)
    {
      forall r, c | lo <= r <= hi && left <= c <= right {
        operations[r + down, c + across] := operations[r, c];
      }
      MarkMoved(old(Operations()), lo, hi, left, right, down, across);
      ShiftedMoves(old(Operations()), old(Effective()), lo, hi, left, right, down, across);
      ShiftedKeeps(old(Operations()), lo, hi, left, right, down, across);
    }

    /** Moving operations moves what they stand for. */
    lemma ShiftedMoves(was: Grid<Operation>, shown: Grid<Look>, lo: int, hi: int, left: int, right: int, down: int,
                       across: int)
      requires Sized() && IsGrid(was, height, width) && IsGrid(screen, height, width) && palette.WellIndexed()
      requires 0 <= lo && hi < height && 0 <= left && right < width
      requires 0 <= lo + down && hi + down < height && 0 <= left + across && right + across < width
      requires forall r, c :: 0 <= r < height && 0 <= c < width && was[r][c].CopyOf? ==>
                 0 <= was[r][c].row < height && 0 <= was[r][c].col < width
      requires IsGrid(shown, height, width)
      requires forall r, c :: 0 <= r < height && 0 <= c < width ==>
                shown[r][c] == Outcome(was[r][c], screen, r, c, palette)
      requires forall a, b :: 0 <= a < height && 0 <= b < width ==>
                 operations[a, b] == Shifted(was, a, b, lo, hi, left, right, down, across, hi + 1, left)
      ensures Valid() && Moved(shown, Effective(), height, width, lo, hi, left, right, down, across)
    {
    }

    /** Moving operations draws no other characters, and moving rows up copies upwards. */
    lemma ShiftedKeeps(was: Grid<Operation>, lo: int, hi: int, left: int, right: int, down: int, across: int)
      requires Sized() && IsGrid(was, height, width)
      requires 0 <= lo && hi < height && 0 <= left && right < width
      requires forall a, b :: 0 <= a < height && 0 <= b < width ==>
                 operations[a, b] == Shifted(was, a, b, lo, hi, left, right, down, across, hi + 1, left)
      ensures forall chars :: OnlyDraws(was, chars, height, width) ==> DrawsOnly(chars)
      ensures across == 0 && down <= 0 && Upwards(was, height, width) ==> CopiesUpwards()
    {
    }

    /** The loop of guac_terminal_display_copy_rows and _copy_columns over the moved operations. */
    method MarkMoved(ghost was: Grid<Operation>, lo: int, hi: int, left: int, right: int, down: int, across: int)
      requires Sized() && IsGrid(was, height, width)
      requires 0 <= lo && hi < height && 0 <= left && right < width
      requires 0 <= lo + down && hi + down < height && 0 <= left + across && right + across < width
      requires forall a, b :: 0 <= a < height && 0 <= b < width ==>
                 operations[a, b] == Shifted(was, a, b, lo, hi, left, right, down, across, lo, left)
      modifies operations
      ensures forall a, b :: 0 <= a < height && 0 <= b < width ==>
                operations[a, b] == Shifted(was, a, b, lo, hi, left, right, down, across, hi + 1, left)
    {
      var r := lo;
      while r <= hi
        invariant lo <= r && (lo <= hi ==> r <= hi + 1)
        invariant forall a, b :: 0 <= a < height && 0 <= b < width ==>
                    operations[a, b] == Shifted(was, a, b, lo, hi, left, right, down, across, r, left)
      {
        var c := left;
        while c <= right
          invariant left <= c
          invariant forall a, b :: 0 <= a < height && 0 <= b < width ==>
                      operations[a, b] == Shifted(was, a, b, lo, hi, left, right, down, across, r, c)
        {
          if operations[r + down, c + across].Nop? {
            operations[r + down, c + across] := CopyOf(r, c);
          }
          c := c + 1;
        }
        r := r + 1;
      }
    }

    /** The operation of cell (a, b) once the cells before (r, c) have been fixed up. */
    ghost function Shifted(was: Grid<Operation>, a: int, b: int, lo: int, hi: int, left: int, right: int, down: int,
                           across: int, r: int, c: int): Operation
      requires IsGrid(was, height, width) && 0 <= a < height && 0 <= b < width
      requires 0 <= lo && hi < height && 0 <= left && right < width
    {
      var sr, sc := a - down, b - across;
      if lo <= sr <= hi && left <= sc <= right then
        if was[sr][sc].Nop? && Earlier(sr, sc, r, c) then CopyOf(sr, sc) else was[sr][sc]
      else was[a][b]
    }

    /** Moves whole rows, once the range has been fitted. */
    method MoveWholeRows(startRow: int, endRow: int, offset: int, ghost lo: int, ghost hi: int)
      requires Valid() && width > 0 && startRow == lo && endRow == hi && 0 <= lo && hi < height
      requires 0 <= lo + offset && hi + offset < height
      modifies operations
      ensures Valid()
      ensures forall a, b :: 0 <= a < height && 0 <= b < width ==>
                operations[a, b] == Shifted(old(Operations()), a, b, lo, hi, 0, width - 1, offset, 0, hi + 1, 0)
      ensures Moved(old(Effective()), Effective(), height, width, lo, hi, 0, width - 1, offset, 0)
      ensures offset <= 0 && old(CopiesUpwards()) ==> CopiesUpwards()
      ensures forall chars :: old(DrawsOnly(chars)) ==> DrawsOnly(chars)
    {
      MoveOperations(startRow, endRow, 0, width - 1, offset, 0);
    }

    /** guac_terminal_display_copy_rows */
    method CopyRows(start: int, end: int, offset: int)
      requires Valid() && width > 0 && height > 0 && CanMove(start, end, offset, height)
      modifies operations
      ensures Valid()
      ensures 0 <= Clamp(start, offset, height) && Clamp(end, offset, height) < height
      ensures forall a, b :: 0 <= a < height && 0 <= b < width ==>
                operations[a, b] == Shifted(old(Operations()), a, b, Clamp(start, offset, height),
                                            Clamp(end, offset, height),
                                            0, width - 1, offset, 0, Clamp(end, offset, height) + 1, 0)
      ensures Moved(old(Effective()), Effective(), height, width,
                    Clamp(start, offset, height), Clamp(end, offset, height), 0, width - 1, offset, 0)
      ensures offset <= 0 && old(CopiesUpwards()) ==> CopiesUpwards()
      ensures forall chars :: old(DrawsOnly(chars)) ==> DrawsOnly(chars)
    {
      ClampExact(start, end, offset, height);
      var startRow := Fit(start, 0, height - 1);
      var endRow := Fit(end, 0, height - 1);
      startRow := Fit(startRow + offset, 0, height - 1) - offset;
      endRow := Fit(endRow + offset, 0, height - 1) - offset;
      MoveWholeRows(startRow, endRow, offset, Clamp(start, offset, height), Clamp(end, offset, height));
    }

    /** guac_terminal_display_copy_columns */
    method CopyColumns(row: int, start: int, end: int, offset: int)
      requires Valid() && width > 0 && height > 0 && (0 <= row < height ==> CanMove(start, end, offset, width))
      modifies operations
      ensures Valid()
      ensures if 0 <= row < height
              then Moved(old(Effective()), Effective(), height, width, row, row,
                         Clamp(start, offset, width), Clamp(end, offset, width), 0, offset)
              else Effective() == old(Effective())
    {
      if row < 0 || row >= height {
        return;
      }
      ClampExact(start, end, offset, width);
      var startColumn := Fit(start, 0, width - 1);
      var endColumn := Fit(end, 0, width - 1);
      startColumn := Fit(startColumn + offset, 0, width - 1) - offset;
      endColumn := Fit(endColumn + offset, 0, width - 1) - offset;
      MoveOperations(row, row, startColumn, endColumn, 0, offset);
    }

    /** guac_terminal_display_set_columns: every width-th column of the range shows the character. */
    method SetColumns(row: int, start: int, end: int, ch: Char)
      requires Valid() && width > 0 && ch.width >= 0
      modifies operations
      ensures Valid()
      ensures ch.width == 0 || row < 0 || row >= height ==> Effective() == old(Effective())
      ensures forall r, c :: 0 <= r < height && 0 <= c < width ==>
                operations[r, c]
                     == if r == row && ch.width > 0 && Fit(start, 0, width - 1) <= c <= Fit(end, 0, width - 1)
                                       && Reached(Fit(start, 0, width - 1), c, ch.width)
                                    then SetTo(ch) else old(operations[r, c])
      ensures ch.width > 0 && 0 <= row < height ==>
                Plotted(old(Effective()), Effective(), height, width, row, Fit(start, 0, width - 1),
                        Fit(end, 0, width - 1),
                        ch.width, Show(palette, ch))
      ensures old(CopiesUpwards()) ==> CopiesUpwards()
      ensures forall chars :: old(DrawsOnly(chars)) ==> DrawsOnly(chars + {ch})
    {
      if ch.width == 0 {
        return;
      }
      if row < 0 || row >= height {
        return;
      }
      var first := Fit(start, 0, width - 1);
      var last := Fit(end, 0, width - 1);
      var i := first;
      while i <= last
        invariant Reached(first, i, ch.width)
        invariant forall r, c :: 0 <= r < height && 0 <= c < width ==>
                    operations[r, c] == if r == row && first <= c <= last && c < i && Reached(first, c, ch.width)
                                        then SetTo(ch) else old(operations[r, c])
      {
        operations[row, i] := SetTo(ch);
        forall c | i < c < i + ch.width
          ensures !Reached(first, c, ch.width)
        {
          NotBetween(first, i, c, ch.width);
        }
        i := i + ch.width;
      }
      assert Plotted(old(Effective()), Effective(), height, width, row, first, last, ch.width, Show(palette, ch));
    }

    /** The bounds of the largest rectangle at (row, col), first to the right and then downwards, in
        which every cell is to be copied from the place where its neighbours' sources predict it. */
    method DetectCopy(row: int, col: int) returns (right: int, bottom: int)
      requires Sized() && 0 <= row < height && 0 <= col < width && operations[row, col].CopyOf?
      ensures col <= right < width && row <= bottom < height
      ensures forall r, c :: row <= r <= bottom && col <= c <= right ==> Predicted(operations[row, col], row, col, r, c)
      ensures right + 1 == width || !Predicted(operations[row, col], row, col, row, right + 1)
      ensures bottom + 1 == height || Interrupted(operations[row, col], row, col, bottom + 1, right)
    {
      right, bottom := -1, row;
      var rectRow := row;
      while rectRow < height
        invariant row <= rectRow <= height && bottom == if rectRow == row then row else rectRow - 1
        invariant rectRow == row ==> right == -1
        invariant rectRow > row ==> col <= right < width
        invariant rectRow > row ==> right + 1 == width || !Predicted(operations[row, col], row, col, row, right + 1)
        invariant forall r, c :: row <= r < rectRow && col <= c <= right ==>
                  Predicted(operations[row, col], row, col, r, c)
      {
        var rectCol := col;
        while rectCol < width && Predicted(operations[row, col], row, col, rectRow, rectCol)
          invariant col <= rectCol <= width
          invariant forall c :: col <= c < rectCol ==> Predicted(operations[row, col], row, col, rectRow, c)
        {
          rectCol := rectCol + 1;
        }
        if rectCol - 1 < right {
          assert !Predicted(operations[row, col], row, col, rectRow, rectCol);
          break;
        }
        bottom := rectRow;
        if right == -1 {
          right := rectCol - 1;
        }
        rectRow := rectRow + 1;
      }
    }

    /** Not all of the cells of row r up to column `right` are predicted. */
    ghost predicate Interrupted(first: Operation, row: int, col: int, r: int, right: int)
      requires Sized() && 0 <= r < height && 0 <= col <= right < width && first.CopyOf?
      reads operations
    {
      exists c :: col <= c <= right && !Predicted(first, row, col, r, c)
    }

    /** Cell (r, c) is to be copied from as far off the source of `first`, at (row, col), as it is
        off (row, col) itself. */
    predicate Predicted(first: Operation, row: int, col: int, r: int, c: int)
      requires Sized() && 0 <= r < height && 0 <= c < width && first.CopyOf?
      reads operations
    {
      operations[r, c] == CopyOf(first.row + (r - row), first.col + (c - col))
    }

    /** Marks all operations of a block as handled. */
    method MarkHandled(b: Block)
      requires Sized() && b.Inside(height, width)
      modifies operations
      ensures forall r, c :: 0 <= r < height && 0 <= c < width ==>
                operations[r, c] == if b.Covers(r, c) then Nop else old(operations[r, c])
    {
      var r := b.row;
      while r < b.row + b.height
        invariant b.row <= r <= b.row + b.height
        invariant forall a, c :: 0 <= a < height && 0 <= c < width ==>
                    operations[a, c] == if b.Covers(a, c) && a < r then Nop else old(operations[a, c])
      {
        var k := b.col;
        while k < b.col + b.width
          invariant b.col <= k <= b.col + b.width
          invariant forall a, c :: 0 <= a < height && 0 <= c < width ==>
                      operations[a, c] == if b.Covers(a, c) && Earlier(a, c, r, k) then Nop else old(operations[a, c])
        {
          operations[r, k] := Nop;
          k := k + 1;
        }
        r := r + 1;
      }
    }

    /** Where the copy pass is about to visit cell (row, col): the copies sent so far are greedy
        blocks that cover all earlier cells to be copied, and have been marked as handled. */
    ghost predicate Copying(was: Grid<Operation>, before: Grid<Look>, plan: seq<Block>, row: int, col: int)
      reads this, operations
    {
      && Sized() && IsGrid(was, height, width) && IsGrid(before, height, width)
      && SourcesInside(Sources(was, height, width), height, width)
      && (forall k :: 0 <= k < |plan| ==> GreedyBlock(Sources(was, height, width), plan, k, height, width))
      && AllInside(plan, height, width) && screen == Execute(plan, before, height, width)
      && (forall r, c :: 0 <= r < height && 0 <= c < width ==>
            operations[r, c] == if Covered(plan, |plan|, r, c) then Nop else was[r][c])
      && (forall r, c :: 0 <= r < height && 0 <= c < width && was[r][c].CopyOf? && Earlier(r, c, row, col) ==>
            Covered(plan, |plan|, r, c))
    }

    /** One cell of __guac_terminal_display_flush_copy. */
    method FlushCopyAt(row: int, col: int, ghost was: Grid<Operation>, ghost before: Grid<Look>, ghost plan: seq<Block>)
      returns (ghost plan': seq<Block>)
      requires Copying(was, before, plan, row, col) && 0 <= row < height && 0 <= col < width
      modifies operations, this`screen
      ensures Copying(was, before, plan', row, col + 1)
    {
      plan' := plan;
      if operations[row, col].CopyOf? {
        var right, bottom := DetectCopy(row, col);
        var b := Block(row, col, bottom - row + 1, right - col + 1, operations[row, col].row, operations[row, col].col);
        DetectedIsGreedy(was, before, plan, b);
        MarkHandled(b);
        SendCopy(b);
        plan' := plan + [b];
        ExecuteExtends(plan, b, before, height, width);
        forall r, c
          ensures Covered(plan', |plan'|, r, c) <==> Covered(plan, |plan|, r, c) || b.Covers(r, c)
        {
          CoveredExtends(plan, b, |plan|, r, c);
        }
      }
    }

    /** A detected block extends the greedy plan. */
    lemma DetectedIsGreedy(was: Grid<Operation>, before: Grid<Look>, plan: seq<Block>, b: Block)
      requires Copying(was, before, plan, b.row, b.col) && 0 < b.height && 0 < b.width
      requires 0 <= b.row && b.row + b.height <= height && 0 <= b.col && b.col + b.width <= width
      requires operations[b.row, b.col] == CopyOf(b.srcRow, b.srcCol)
      requires forall r, c :: b.Covers(r, c) ==> Predicted(operations[b.row, b.col], b.row, b.col, r, c)
      requires b.col + b.width == width || !Predicted(operations[b.row, b.col], b.row, b.col, b.row, b.col + b.width)
      requires b.row + b.height == height
               || Interrupted(operations[b.row, b.col], b.row, b.col, b.row + b.height, b.col + b.width - 1)
      ensures b.Inside(height, width)
      ensures forall k :: 0 <= k < |plan| + 1 ==> GreedyBlock(Sources(was, height, width), plan + [b], k, height, width)
    {
      var sources := Sources(was, height, width);
      forall r, c | b.Covers(r, c)
        ensures sources[r][c] == b.Expected(r, c) && !Covered(plan, |plan|, r, c)
      {
        assert Predicted(operations[b.row, b.col], b.row, b.col, r, c);
      }
      assert b.Covers(b.row + b.height - 1, b.col + b.width - 1) && b.Covers(b.row, b.col);
      assert sources[b.row + b.height - 1][b.col + b.width - 1].From?;
      if b.row + b.height < height {
        var r := b.row + b.height;
        var c :| b.col <= c <= b.col + b.width - 1 && !Predicted(operations[b.row, b.col], b.row, b.col, r, c);
        assert Blocked(sources, plan, |plan|, b, r, c);
      }
      GreedyExtends(sources, plan, b, height, width);
    }

    /** guac_common_surface_copy of the screen onto itself */
    ghost method SendCopy(b: Block)
      requires IsGrid(screen, height, width) && b.Inside(height, width)
      modifies this`screen
      ensures screen == CopyBlock(b, old(screen), height, width)
    {
      screen := CopyBlock(b, screen, height, width);
    }

    /** __guac_terminal_display_flush_copy: sends the blocks of the plan for what is pending. */
    method FlushCopy()
      requires Valid()
      modifies operations, this`screen
      ensures Valid()
      ensures var plan := PlanOf(Sources(old(Operations()), height, width), height, width);
        AllInside(plan, height, width) && screen == Execute(plan, old(screen), height, width)
      ensures forall r, c :: 0 <= r < height && 0 <= c < width ==>
                operations[r, c] == if old(operations[r, c]).CopyOf? then Nop else old(operations[r, c])
    {
      ghost var was, before := Operations(), screen;
      ghost var plan: seq<Block> := [];
      var row := 0;
      while row < height
        invariant 0 <= row <= height && Copying(was, before, plan, row, 0)
      {
        var col := 0;
        while col < width
          invariant 0 <= col <= width && Copying(was, before, plan, row, col)
        {
          plan := FlushCopyAt(row, col, was, before, plan);
          col := col + 1;
        }
        row := row + 1;
      }
      CopyingDone(was, before, plan);
      PlanIsDetermined(Sources(was, height, width), plan, height, width);
    }

    lemma CopyingDone(was: Grid<Operation>, before: Grid<Look>, plan: seq<Block>)
      requires Copying(was, before, plan, height, 0)
      ensures GreedyPlan(Sources(was, height, width), plan, height, width)
      ensures forall r, c :: 0 <= r < height && 0 <= c < width ==>
                operations[r, c] == if was[r][c].CopyOf? then Nop else was[r][c]
    {
      var sources := Sources(was, height, width);
      forall r, c | 0 <= r < height && 0 <= c < width
        ensures Covered(plan, |plan|, r, c) <==> was[r][c].CopyOf?
      {
        if Covered(plan, |plan|, r, c) {
          var i :| 0 <= i < |plan| && plan[i].Covers(r, c);
          assert GreedyBlock(sources, plan, i, height, width);
        }
      }
    }

    /** No cell is to be copied any more, and the screen that the operations stand for is `goal`. */
    ghost predicate Showing(goal: Grid<Look>)
      reads this, operations
    {
      && Valid() && IsGrid(goal, height, width)
      && forall r, c :: 0 <= r < height && 0 <= c < width ==>
           !operations[r, c].CopyOf? && Outcome(operations[r, c], screen, r, c, palette) == goal[r][c]
    }

    /** The character of this cell is to be drawn, is blank, and has the given colour behind it. */
    predicate Clearable(r: int, c: int, color: Color)
      requires Sized() && 0 <= r < height && 0 <= c < width
      reads operations
    {
      && operations[r, c].SetTo? && !HasGlyph(operations[r, c].character.value)
      && SameColor(Backdrop(operations[r, c].character), color)
    }

    ghost predicate SomeUnclearable(r: int, left: int, right: int, color: Color)
      requires Sized() && 0 <= r < height && 0 <= left <= right < width
      reads operations
    {
      exists c :: left <= c <= right && !Clearable(r, c, color)
    }

    /** The bounds of the largest rectangle of cells at (row, col), first to the right and then
        downwards, that are to be cleared with one colour. */
    method DetectClear(row: int, col: int, color: Color) returns (right: int, bottom: int)
      requires Sized() && 0 <= row < height && 0 <= col < width && Clearable(row, col, color)
      ensures col <= right < width && row <= bottom < height
      ensures forall r, c :: row <= r <= bottom && col <= c <= right ==> Clearable(r, c, color)
      ensures right + 1 == width || !Clearable(row, right + 1, color)
      ensures bottom + 1 == height || SomeUnclearable(bottom + 1, col, right, color)
    {
      right, bottom := -1, row;
      var rectRow := row;
      while rectRow < height
        invariant row <= rectRow <= height && bottom == if rectRow == row then row else rectRow - 1
        invariant rectRow == row ==> right == -1
        invariant rectRow > row ==> col <= right < width
        invariant rectRow > row ==> right + 1 == width || !Clearable(row, right + 1, color)
        invariant forall r, c :: row <= r < rectRow && col <= c <= right ==> Clearable(r, c, color)
      {
        var rectCol := col;
        while rectCol < width && Clearable(rectRow, rectCol, color)
          invariant col <= rectCol <= width
          invariant forall c :: col <= c < rectCol ==> Clearable(rectRow, c, color)
        {
          rectCol := rectCol + 1;
        }
        if rectCol - 1 < right {
          assert !Clearable(rectRow, rectCol, color);
          break;
        }
        bottom := rectRow;
        if right == -1 {
          right := rectCol - 1;
        }
        rectRow := rectRow + 1;
      }
    }

    /** Any two blanks that are to be drawn and compare as having the same colour do have it. */
    ghost predicate BlanksAgree()
      requires Sized()
      reads this, operations
    {
      forall a, b, r, c :: 0 <= a < height && 0 <= b < width && 0 <= r < height && 0 <= c < width ==>
        operations[a, b].SetTo? && operations[r, c].SetTo? ==>
          Agree(palette, operations[a, b].character, operations[r, c].character)
    }

    /** One cell of __guac_terminal_display_flush_clear. */
    method FlushClearAt(row: int, col: int, ghost goal: Grid<Look>)
      requires Showing(goal) && BlanksAgree() && 0 <= row < height && 0 <= col < width
      modifies operations, this`screen
      ensures Showing(goal) && !IsBlank(operations[row, col])
      ensures forall r, c :: 0 <= r < height && 0 <= c < width ==>
                operations[r, c] == old(operations[r, c]) || (IsBlank(old(operations[r, c])) && operations[r, c] == Nop)
    {
      if IsBlank(operations[row, col]) {
        var color := palette.Resolve(Backdrop(operations[row, col].character));
        var right, bottom := DetectClear(row, col, color);
        var b := Block(row, col, bottom - row + 1, right - col + 1, row, col);
        forall r, c | b.Covers(r, c)
          ensures Outcome(operations[r, c], screen, r, c, palette) == Blank(color.rgb)
        {
          assert Clearable(r, c, color);
          SameColorIffFresh(palette, Backdrop(operations[row, col].character), Backdrop(operations[r, c].character));
        }
        MarkHandled(b);
        SendFill(b, color.rgb);
      }
    }

    /** guac_common_surface_set of a rectangle of cells */
    ghost method SendFill(b: Block, rgb: Rgb)
      requires IsGrid(screen, height, width)
      modifies this`screen
      ensures IsGrid(screen, height, width)
      ensures forall r, c :: 0 <= r < height && 0 <= c < width ==>
                screen[r][c] == if b.Covers(r, c) then Blank(rgb) else old(screen[r][c])
    {
      var was := screen;
      screen := seq(height, r requires 0 <= r < height => seq(width, c requires 0 <= c < width =>
        if b.Covers(r, c) then Blank(rgb) else was[r][c]));
    }

    /** __guac_terminal_display_flush_clear: draws all blanks, as rectangles, and nothing else, without
        changing the screen that the pending operations stand for. */
    method FlushClear(ghost goal: Grid<Look>)
      requires Showing(goal) && BlanksAgree()
      modifies operations, this`screen
      ensures Showing(goal)
      ensures forall r, c :: 0 <= r < height && 0 <= c < width ==>
                operations[r, c] == if IsBlank(old(operations[r, c])) then Nop else old(operations[r, c])
    {
      var row := 0;
      while row < height
        invariant 0 <= row <= height && Showing(goal) && ClearedUpTo(old(Operations()), row, 0)
      {
        var col := 0;
        while col < width
          invariant 0 <= col <= width && Showing(goal) && ClearedUpTo(old(Operations()), row, col)
        {
          FlushClearAt(row, col, goal);
          col := col + 1;
        }
        row := row + 1;
      }
    }

    /** The blanks before cell (row, col), and perhaps others, have been cleared; all else is as it was. */
    ghost predicate ClearedUpTo(was: Grid<Operation>, row: int, col: int)
      requires Sized() && IsGrid(was, height, width)
      reads operations
    {
      forall r, c :: 0 <= r < height && 0 <= c < width ==>
        && (operations[r, c] == was[r][c] || (IsBlank(was[r][c]) && operations[r, c] == Nop))
        && (Earlier(r, c, row, col) ==> !IsBlank(operations[r, c]))
    }

    /** Every character that is still to be drawn takes one column. */
    ghost predicate SingleColumns()
      requires Sized()
      reads operations
    {
      forall r, c :: 0 <= r < height && 0 <= c < width && operations[r, c].SetTo? ==>
        DrawnWidth(operations[r, c].character) == 1
    }

    /** __guac_terminal_set: draws all columns of a character at once. */
    ghost method SendCharacter(row: int, col: int, ch: Char)
      requires IsGrid(screen, height, width)
      modifies this`screen
      ensures IsGrid(screen, height, width)
      ensures forall r, c :: 0 <= r < height && 0 <= c < width ==>
                screen[r][c] == if r == row && col <= c < col + DrawnWidth(ch) then ShowColumn(palette, ch, c - col)
                                else old(screen[r][c])
    {
      var was, colors := screen, palette;
      screen := seq(height, r requires 0 <= r < height => seq(width, c requires 0 <= c < width =>
        if r == row && col <= c < col + DrawnWidth(ch) then ShowColumn(colors, ch, c - col) else was[r][c]));
    }

    /** __guac_terminal_display_flush_set: draws the remaining characters one by one. */
    method FlushSet(ghost goal: Grid<Look>)
      requires Showing(goal) && SingleColumns()
      modifies operations, this`screen
      ensures Showing(goal)
      ensures forall r, c :: 0 <= r < height && 0 <= c < width ==> operations[r, c] == Nop
    {
      var row := 0;
      while row < height
        invariant 0 <= row && Showing(goal) && SingleColumns()
        invariant forall r, c :: 0 <= r < height && 0 <= c < width && Earlier(r, c, row, 0) ==> operations[r, c] == Nop
      {
        var col := 0;
        while col < width
          invariant 0 <= col && Showing(goal) && SingleColumns()
          invariant forall r, c :: 0 <= r < height && 0 <= c < width && Earlier(r, c, row, col) ==>
                    operations[r, c] == Nop
        {
          if operations[row, col].SetTo? {
            SendCharacter(row, col, operations[row, col].character);
            operations[row, col] := Nop;
          }
          col := col + 1;
        }
        row := row + 1;
      }
    }

    /** The copies that are pending can be carried out block by block. */
    ghost predicate CopiesSafely()
      requires Valid()
      reads this, operations
    {
      Safe(Sources(Operations(), height, width), height, width)
    }

    /** guac_terminal_display_flush: copies first, then clears, then sets.  The screen becomes the
        one that the pending operations stood for, provided that the copies are safe, as they always
        are when all of them come from below. */
    method Flush()
      requires Valid() && BlanksAgree() && SingleColumns()
      modifies operations, this`screen
      ensures Valid()
      ensures forall r, c :: 0 <= r < height && 0 <= c < width ==> operations[r, c] == Nop
      ensures Flushed(old(Operations()), old(screen), screen, palette, height, width)
      ensures old(CopiesSafely()) ==> screen == old(Effective())
      ensures old(CopiesUpwards()) ==> screen == old(Effective())
    {
      if CopiesUpwards() {
        UpwardsAreSafe();
      }
      FlushPasses();
    }

    /** All three passes. */
    method FlushPasses()
      requires Valid() && BlanksAgree() && SingleColumns()
      modifies operations, this`screen
      ensures Valid()
      ensures forall r, c :: 0 <= r < height && 0 <= c < width ==> operations[r, c] == Nop
      ensures Flushed(old(Operations()), old(screen), screen, palette, height, width)
      ensures old(CopiesSafely()) ==> screen == old(Effective())
    {
      FlushCopies();
      FlushCharacters();
    }

    lemma UpwardsAreSafe()
      requires Valid() && CopiesUpwards()
      ensures CopiesSafely()
    {
      var sources := Sources(Operations(), height, width);
      PlanIsDetermined(sources, PlanOf(sources, height, width), height, width);
      UpwardIsSafe(sources, PlanOf(sources, height, width), height, width);
    }

    /** The first pass of guac_terminal_display_flush: if the copies are safe, it does not change the
        screen that the pending operations stand for. */
    method FlushCopies()
      requires Valid() && BlanksAgree() && SingleColumns()
      modifies operations, this`screen
      ensures Valid() && BlanksAgree() && SingleColumns()
      ensures Flushed(old(Operations()), old(screen), Effective(), palette, height, width)
      ensures old(CopiesSafely()) ==> Effective() == old(Effective())
      ensures forall r, c :: 0 <= r < height && 0 <= c < width ==>
                operations[r, c] == if old(operations[r, c]).CopyOf? then Nop else old(operations[r, c])
    {
      ghost var ops, before, goal := Operations(), screen, Effective();
      CarryOutCopies();
      if Safe(Sources(ops, height, width), height, width) {
        SafeIsExact(ops, before, Effective(), goal, palette, height, width);
      }
    }

    method CarryOutCopies()
      requires Valid()
      modifies operations, this`screen
      ensures Valid()
      ensures Flushed(old(Operations()), old(screen), Effective(), palette, height, width)
      ensures forall r, c :: 0 <= r < height && 0 <= c < width ==>
                operations[r, c] == if old(operations[r, c]).CopyOf? then Nop else old(operations[r, c])
    {
      FlushCopy();
    }

    /** The second and third pass of guac_terminal_display_flush, once there are no copies left. */
    method FlushCharacters()
      requires Valid() && BlanksAgree() && SingleColumns()
      requires forall r, c :: 0 <= r < height && 0 <= c < width ==> !operations[r, c].CopyOf?
      modifies operations, this`screen
      ensures Valid() && screen == old(Effective())
      ensures forall r, c :: 0 <= r < height && 0 <= c < width ==> operations[r, c] == Nop
    {
      ghost var shown := Effective();
      FlushClear(shown);
      FlushSet(shown);
      SameLooks(screen, shown, height, width);
    }

    /** Nothing is pending, on a screen of three rows of two cells. */
    ghost predicate FlushedThreeByTwo()
      reads this, operations
    {
      && Valid() && height == 3 && width == 2
      && forall r, c :: 0 <= r < height && 0 <= c < width ==> operations[r, c] == Nop
    }

    /** The first two rows are scrolled down. */
    method ScrollTwoDown()
      requires FlushedThreeByTwo()
      modifies operations
      ensures Valid() && Immediate(Scroll(0, 1, 1), old(screen), Effective(), palette, 3, 2)
      ensures PendingScroll(CopyOf(1, 1))
    {
      SameLooks(Effective(), screen, height, width);
      CopyRows(0, 1, 1);
    }

    /** What is pending then, and after a character has been written to the last cell. */
    ghost predicate PendingScroll(last: Operation)
      requires Sized() && height == 3 && width == 2
      reads operations
    {
      && operations[0, 0] == Nop && operations[0, 1] == Nop
      && operations[1, 0] == CopyOf(0, 0) && operations[1, 1] == CopyOf(0, 1)
      && operations[2, 0] == CopyOf(1, 0) && operations[2, 1] == last
    }

    method WriteLast(ch: Char)
      requires Valid() && height == 3 && width == 2 && ch.width == 1 && PendingScroll(CopyOf(1, 1))
      modifies operations
      ensures Valid() && PendingScroll(SetTo(ch))
      ensures Immediate(Write(2, 1, 1, ch), old(Effective()), Effective(), palette, 3, 2)
    {
      SetColumns(2, 1, 1, ch);
    }

    lemma PendingSources(ch: Char)
      requires Valid() && height == 3 && width == 2 && PendingScroll(SetTo(ch))
      ensures ScrolledAndWritten(Sources(Operations(), height, width))
    {
    }

    lemma PendingDraws(ch: Char)
      requires Valid() && height == 3 && width == 2 && PendingScroll(SetTo(ch)) && HasGlyph(ch.value) && ch.width == 1
      ensures BlanksAgree() && SingleColumns() && Effective()[2][0] == screen[1][0]
    {
      forall r, c | 0 <= r < height && 0 <= c < width && operations[r, c].SetTo?
        ensures operations[r, c].character == ch
      {
        assert r == 2 && c == 1;
      }
    }

    /** A run that fails: on a flushed screen of three rows of two cells, the first two rows are scrolled
        down, a character is written to the second column of the last row, and the display is flushed.
        The first column of the last row then shows what was in the first row; had the edits been
        carried out at once, it would show what was in the second row. */
    method ScrollDownThenWrite(ch: Char) returns (ghost scrolled: Grid<Look>, ghost expected: Grid<Look>)
      requires FlushedThreeByTwo() && HasGlyph(ch.value) && ch.width == 1
      modifies operations, this`screen
      ensures Immediate(Scroll(0, 1, 1), old(screen), scrolled, palette, 3, 2)
      ensures Immediate(Write(2, 1, 1, ch), scrolled, expected, palette, 3, 2)
      ensures expected[2][0] == old(screen)[1][0] && |screen| == 3
      ensures |screen[2]| == 2 && screen[2][0] == old(screen)[0][0]
    {
      scrolled, expected := ScrollAndWrite(ch);
      FlushPending(ch);
    }

    method ScrollAndWrite(ch: Char) returns (ghost scrolled: Grid<Look>, ghost expected: Grid<Look>)
      requires FlushedThreeByTwo() && HasGlyph(ch.value) && ch.width == 1
      modifies operations
      ensures Immediate(Scroll(0, 1, 1), old(screen), scrolled, palette, 3, 2)
      ensures Immediate(Write(2, 1, 1, ch), scrolled, expected, palette, 3, 2)
      ensures expected[2][0] == screen[1][0] && Valid() && PendingScroll(SetTo(ch))
    {
      ScrollTwoDown();
      scrolled := Effective();
      WriteLast(ch);
      expected := Effective();
      PendingDraws(ch);
    }

    method FlushPending(ch: Char)
      requires Valid() && height == 3 && width == 2 && PendingScroll(SetTo(ch)) && HasGlyph(ch.value) && ch.width == 1
      modifies operations, this`screen
      ensures IsGrid(screen, 3, 2) && screen[2][0] == old(screen)[0][0]
    {
      PendingSources(ch);
      PendingDraws(ch);
      FlushClashing();
    }

    method FlushClashing()
      requires Valid() && BlanksAgree() && SingleColumns() && height == 3 && width == 2 && !operations[2, 0].SetTo?
      requires ScrolledAndWritten(Sources(Operations(), height, width))
      modifies operations, this`screen
      ensures IsGrid(screen, 3, 2) && screen[2][0] == old(screen)[0][0]
    {
      ScrollDownThenWriteClashes(Sources(Operations(), height, width), screen);
      Flush();
    }

    method ApplyEdit(edit: Edit, ghost chars: set<Char>)
      requires Valid() && width > 0 && height > 0 && edit.Legal(height, chars) && CopiesUpwards() && DrawsOnly(chars)
      modifies operations
      ensures Valid() && CopiesUpwards() && DrawsOnly(chars)
      ensures Immediate(edit, old(Effective()), Effective(), palette, height, width)
    {
      match edit {
        case Scroll(start, end, offset) => CopyRows(start, end, offset);
        case Write(row, start, end, ch) =>
          SetColumns(row, start, end, ch);
          assert chars + {ch} == chars;
      }
    }

    /** A frame: starting from a flushed display, any number of rows scrolled up and characters
        written, and then a flush.  The screen ends up as if every edit had been carried out on it
        immediately. */
    method Frame(edits: seq<Edit>, ghost chars: set<Char>)
      requires Valid() && width > 0 && height > 0
      requires forall r, c :: 0 <= r < height && 0 <= c < width ==> operations[r, c] == Nop
      requires forall k :: 0 <= k < |edits| ==> edits[k].Legal(height, chars)
      requires Drawable(palette, chars)
      modifies operations, this`screen
      ensures Valid() && RunsTo(edits, old(screen), screen, palette, height, width)
      ensures forall r, c :: 0 <= r < height && 0 <= c < width ==> operations[r, c] == Nop
    {
      SameLooks(Effective(), screen, height, width);
      var k := 0;
      while k < |edits|
        invariant 0 <= k <= |edits| && Valid() && CopiesUpwards() && DrawsOnly(chars)
        invariant RunsTo(edits[..k], old(screen), Effective(), palette, height, width)
      {
        ApplyEdit(edits[k], chars);
        assert edits[..k + 1][..k] == edits[..k];
        k := k + 1;
      }
      assert edits[..k] == edits;
      Flush();
    }
  }

  datatype Edit =
    | Scroll(start: int, end: int, offset: int)                 // guac_terminal_display_copy_rows
    | Write(row: int, start: int, end: int, character: Char)    // guac_terminal_display_set_columns
  {
    ghost predicate Legal(h: nat, chars: set<Char>) {
      match this
      case Scroll(start, end, offset) => offset <= 0 && CanMove(start, end, offset, h)
      case Write(row, start, end, ch) => ch in chars && ch.width >= 0
    }
  }

  /** If both characters are blank, and the code takes the second to have the colour of the first, then
      it has: the colour of the first is in the palette, or that of the second is up to date. */
  ghost predicate Agree(palette: Palette, first: Char, second: Char) {
    !HasGlyph(first.value) && !HasGlyph(second.value) ==>
      && -3 <= Backdrop(first).index < 256
      && (SameColor(Backdrop(second), palette.Resolve(Backdrop(first))) ==>
            Backdrop(first).index != COLOR_NONE || Fresh(palette, Backdrop(second)))
  }

  /** Carrying out the plan for the pending copies, and drawing the pending characters on top. */
  ghost predicate Flushed(ops: Grid<Operation>, was: Grid<Look>, now: Grid<Look>, palette: Palette, h: nat, w: nat)
    requires IsGrid(ops, h, w)
  {
    var plan := PlanOf(Sources(ops, h, w), h, w);
    && IsGrid(was, h, w) && IsGrid(now, h, w) && AllInside(plan, h, w)
    && forall r, c {:trigger now[r][c]} :: 0 <= r < h && 0 <= c < w ==>
         now[r][c] == if ops[r][c].SetTo? then Show(palette, ops[r][c].character) else Execute(plan, was, h, w)[r][c]
  }

  /** Carrying out a safe plan shows what the operations stand for. */
  lemma SafeIsExact(ops: Grid<Operation>, was: Grid<Look>, now: Grid<Look>, goal: Grid<Look>, palette: Palette,
                    h: nat, w: nat)
    requires IsGrid(ops, h, w) && SourcesInside(Sources(ops, h, w), h, w) && Safe(Sources(ops, h, w), h, w)
    requires Flushed(ops, was, now, palette, h, w) && IsGrid(goal, h, w)
    requires forall r, c :: 0 <= r < h && 0 <= c < w && ops[r][c].CopyOf? ==>
               0 <= ops[r][c].row < h && 0 <= ops[r][c].col < w
    requires forall r, c :: 0 <= r < h && 0 <= c < w ==> goal[r][c] == Outcome(ops[r][c], was, r, c, palette)
    ensures now == goal
  {
    var sources := Sources(ops, h, w);
    PlanIsDetermined(sources, PlanOf(sources, h, w), h, w);
    SafePlanIsExact(sources, PlanOf(sources, h, w), was, h, w);
    forall r, c | 0 <= r < h && 0 <= c < w
      ensures now[r][c] == goal[r][c]
    {
    }
    SameLooks(now, goal, h, w);
  }

  /** Characters of one column, among which blanks that compare as having the same colour have it. */
  ghost predicate Drawable(palette: Palette, chars: set<Char>) {
    && (forall ch :: ch in chars ==> DrawnWidth(ch) == 1)
    && forall first, second :: first in chars && second in chars ==> Agree(palette, first, second)
  }

  /** The edit carried out on the screen itself. */
  ghost predicate Immediate(edit: Edit, was: Grid<Look>, now: Grid<Look>, palette: Palette, h: nat, w: nat) {
    match edit
    case Scroll(start, end, offset) =>
      Moved(was, now, h, w, Clamp(start, offset, h), Clamp(end, offset, h), 0, w - 1, offset, 0)
    case Write(row, start, end, ch) =>
      if ch.width > 0 && 0 <= row < h then
        Plotted(was, now, h, w, row, Fit(start, 0, w - 1), Fit(end, 0, w - 1), ch.width, Show(palette, ch))
      else now == was
  }

  /** All edits carried out one after another. */
  ghost predicate RunsTo(edits: seq<Edit>, was: Grid<Look>, now: Grid<Look>, palette: Palette, h: nat, w: nat) {
    if edits == [] then now == was
    else
      var before, last := edits[..|edits| - 1], edits[|edits| - 1];
      exists mid :: RunsTo(before, was, mid, palette, h, w) && Immediate(last, mid, now, palette, h, w)
  }

  /** Carrying out the edits has one result. */
  lemma {:induction false} RunsToOnce(edits: seq<Edit>, was: Grid<Look>, a: Grid<Look>, b: Grid<Look>,
                                      palette: Palette, h: nat, w: nat)
    requires RunsTo(edits, was, a, palette, h, w) && RunsTo(edits, was, b, palette, h, w)
    ensures a == b
  {
    if edits != [] {
      var n := |edits| - 1;
      var mid :| RunsTo(edits[..n], was, mid, palette, h, w) && Immediate(edits[n], mid, a, palette, h, w);
      var mid' :| RunsTo(edits[..n], was, mid', palette, h, w) && Immediate(edits[n], mid', b, palette, h, w);
      RunsToOnce(edits[..n], was, mid, mid', palette, h, w);
      ImmediateOnce(edits[n], mid, a, b, palette, h, w);
    }
  }

  lemma ImmediateOnce(edit: Edit, was: Grid<Look>, a: Grid<Look>, b: Grid<Look>, palette: Palette, h: nat, w: nat)
    requires Immediate(edit, was, a, palette, h, w) && Immediate(edit, was, b, palette, h, w)
    ensures a == b
  {
    match edit
    case Scroll(start, end, offset) =>
      var lo, hi := Clamp(start, offset, h), Clamp(end, offset, h);
      forall r, c | 0 <= r < h && 0 <= c < w
        ensures a[r][c] == b[r][c]
      {
        if lo <= r - offset <= hi {
          assert a[r - offset + offset][c + 0] == was[r - offset][c] == b[r - offset + offset][c + 0];
        }
      }
      SameLooks(a, b, h, w);
    case Write(row, start, end, ch) =>
      if ch.width > 0 && 0 <= row < h {
        SameLooks(a, b, h, w);
      }
  }

  lemma SameLooks(a: Grid<Look>, b: Grid<Look>, h: nat, w: nat)
    requires IsGrid(a, h, w) && IsGrid(b, h, w)
    requires forall r, c :: 0 <= r < h && 0 <= c < w ==> a[r][c] == b[r][c]
    ensures a == b
  {
    forall r | 0 <= r < h ensures a[r] == b[r] { }
  }

  /** Going from column `first` in steps of the given size, one gets to column c. */
  predicate Reached(first: int, c: int, step: int)
    requires step > 0
    decreases c - first
  {
    c == first || (c > first && Reached(first, c - step, step))
  }

  lemma {:induction false} NotBetween(first: int, i: int, c: int, step: int)
    requires step > 0 && Reached(first, i, step) && i < c < i + step
    ensures !Reached(first, c, step)
    decreases i - first
  {
    if i > first {
      NotBetween(first, i - step, c - step, step);
    }
  }

  /** In steps of one, every column from the first on is reached. */
  lemma {:induction false} ReachedByOnes(first: int, c: int)
    ensures Reached(first, c, 1) <==> c >= first
    decreases c - first
  {
    if c > first {
      ReachedByOnes(first, c - 1);
    }
  }
}
