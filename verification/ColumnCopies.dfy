/** Copying columns within rows of characters: guac_terminal_copy_columns of src/terminal/terminal.c, as
    far as the buffer is concerned. */
module ColumnCopies {
  import opened TerminalTypes
  import opened WideChars
  import opened RowWrites
  import opened Displays

  /** The columns from start to end, copied over those `offset` to the right. */
  function Copied(c: Cells, start: int, end: int, offset: int): (r: Cells)
    requires 0 <= start <= end + 1 && end < |c| && 0 <= start + offset && end + offset < |c|
    ensures |r| == |c|
  {
    c[..start + offset] + c[start..end + 1] + c[end + offset + 1..]
  }

  /** The columns from start up to `upto` have been copied to those from `left` up to `right`. */
  ghost predicate RangeCopied(p: Cells, start: int, upto: int, offset: int, r: Cells, left: int, right: int) {
    && 0 <= start < upto <= |p| == |r| && 0 <= left == start + offset && right == upto + offset <= |p|
    && (forall i :: 0 <= i < left || right <= i < |p| ==> r[i] == p[i])
    && (forall i {:trigger r[i]} :: left <= i < right ==> r[i] == p[i - offset])
  }

  lemma CopiedIsRange(p: Cells, start: int, end: int, offset: int, r: Cells, upto: int, left: int, right: int)
    requires 0 <= start <= end < |p| && 0 <= left == start + offset && end + offset < |p|
    requires upto == end + 1 && right == upto + offset && r == Copied(p, start, end, offset)
    ensures RangeCopied(p, start, upto, offset, r, left, right)
  {
    assert r == p[..left] + p[start..upto] + p[right..];
    forall i | left <= i < right
      ensures r[i] == p[i - offset]
    {
    }
  }

  /** Columns copied from one part of the row to another may be cut on either side. */
  lemma RangeParts(p: Cells, start: int, upto: int, offset: int, r: Cells, left: int, right: int)
    requires Intact(p) && RangeCopied(p, start, upto, offset, r, left, right)
    ensures Sane(r) && Part(r, 0, left) && Part(r, left, right) && Part(r, right, |r|)
    ensures (0 < left ==> Opens(r, 0)) && Closes(r, right, |r|) && (upto == |p| ==> Closes(r, left, right))
  {
    IntactIsSane(p);
    IntactParts(p, 0, left);
    IntactParts(p, start, upto);
    IntactParts(p, right, |p|);
    PartAlike(p, r, 0, left);
    PartMoves(p, start, upto, r, offset);
    PartAlike(p, r, right, |p|);
  }

  // Ranges that reach beyond the row.

  predicate OnlyContinuations(c: Cells, lo: int, hi: int) {
    forall i :: 0 <= lo <= i < hi <= |c| ==> IsContinuation(c[i])
  }

  /** Columns from the end of a row have been copied to columns `left` up to `stale`, but the second
      break is made at `right`, beyond the first column that has not been replaced. */
  ghost predicate Overhanging(r: Cells, left: int, stale: int, right: int) {
    && Sane(r) && 0 <= left < stale < right <= |r|
    && Part(r, 0, left) && (0 < left ==> Opens(r, 0)) && Part(r, left, stale) && Closes(r, left, stale)
    && Part(r, stale, |r|) && Closes(r, stale, |r|)
  }

  /** If the stale columns begin with a character, all is as if they had been copied. */
  lemma StaleCharacter(r: Cells, left: int, stale: int, right: int)
    requires Overhanging(r, left, stale, right) && !IsContinuation(r[stale])
    ensures Intact(BrokenTwice(r, left, right))
  {
    PartShrinks(r, stale, |r|, stale, right);
    PartShrinks(r, stale, |r|, right, |r|);
    PartsJoin(r, left, stale, right);
    BreaksMend(r, left, right);
  }

  /** A break clears the stray columns behind a run that starts there, or all of it. */
  lemma RunMended(d: Cells, left: int, stale: int)
    requires Sane(d) && Part(d, 0, left) && (0 < left ==> Opens(d, 0)) && Closes(d, 0, left)
    requires left < stale < |d| && Part(d, left, stale) && Closes(d, left, stale)
    requires Part(d, stale, |d|) && Closes(d, stale, |d|)
    requires forall i :: left < i <= stale ==> IsContinuation(d[i])
    ensures Intact(BreakRight(d, left))
  {
    var last := RunEnd(d, left);
    var first := if IsContinuation(d[left]) then left else stale;
    assert !IsContinuation(d[left]) ==> Follows(d, left, stale);
    assert last >= stale;
    var e := Cleared(d, first, last);
    assert BreakRight(d, left) == e;
    PartShrinks(d, stale, |d|, last + 1, |d|);
    RunClearedIntact(d, e, left, first, last);
  }

  lemma RunClearedIntact(d: Cells, e: Cells, left: int, first: int, last: int)
    requires 0 <= left <= first <= last < |d| && e == Cleared(d, first, last)
    requires Part(d, 0, left) && (0 < left ==> Opens(d, 0)) && Closes(d, 0, left)
    requires Part(d, last + 1, |d|) && Closes(d, last + 1, |d|) && Opens(d, last + 1)
    requires if first == left then true else !IsContinuation(d[left]) && left + d[left].width == first
    requires forall i :: left < i < first ==> IsContinuation(d[i])
    ensures Intact(e)
  {
    PartAlike(d, e, 0, left);
    PartAlike(d, e, last + 1, |d|);
    ClearedRun(d, e, left, first, last);
    ThreeParts(e, left, last + 1);
  }

  lemma ThreeParts(e: Cells, left: int, right: int)
    requires Part(e, 0, left) && Closes(e, 0, left) && (0 < left ==> Opens(e, 0)) && Opens(e, left) && left < right
    requires Part(e, left, right) && Closes(e, left, right) && Opens(e, right)
    requires Part(e, right, |e|) && Closes(e, right, |e|)
    ensures Intact(e)
  {
    PartsJoin(e, 0, left, right);
    PartsJoin(e, 0, right, |e|);
  }

  lemma ClearedRun(d: Cells, e: Cells, left: int, first: int, last: int)
    requires 0 <= left <= first <= last < |d| && e == Cleared(d, first, last)
    requires if first == left then true else !IsContinuation(d[left]) && left + d[left].width == first
    requires forall i :: left < i < first ==> IsContinuation(d[i])
    ensures Part(e, left, last + 1) && Closes(e, left, last + 1) && Opens(e, left)
  {
    forall i | left <= i < last + 1 && !IsContinuation(e[i])
      ensures Follows(e, i, last + 1) && i + e[i].width <= last + 1
    {
    }
  }

  /** If the copied columns are one run, then the first break clears the stray columns behind it. */
  lemma StaleBehindRun(r: Cells, left: int, stale: int, right: int)
    requires Overhanging(r, left, stale, right)
    requires forall i :: left < i <= stale ==> IsContinuation(r[i])
    ensures Intact(BrokenTwice(r, left, right))
  {
    var d := BreakLeft(r, left);
    if 0 < left {
      LeftMended(r, 0, left);
    }
    PartAlike(r, d, left, stale);
    PartAlike(r, d, stale, |r|);
    RunMended(d, left, stale);
    IntactBreak(BreakRight(d, left), right);
  }

  lemma RightChangesBefore(c: Cells, edge: int, base: int)
    requires Sane(c) && 0 <= edge < base < |c| && !IsContinuation(c[base])
    ensures forall i :: 0 <= i < edge || base <= i < |c| ==> BreakRight(c, edge)[i] == c[i]
  {
    assert RunEnd(c, edge) < base;
  }

  /** The last character of the copied columns, if they do not just begin with it. */
  lemma LastCopied(r: Cells, left: int, stale: int, right: int) returns (b: int)
    requires Overhanging(r, left, stale, right) && !OnlyContinuations(r, left + 1, stale)
    ensures left < b < stale && !IsContinuation(r[b]) && b + r[b].width == stale
    ensures forall i :: b < i < stale ==> IsContinuation(r[i])
    ensures var d := ForceBreak(r, left);
      && Sane(d) && Part(d, 0, b) && Closes(d, 0, b) && Opens(d, 0) && forall i :: b <= i < |r| ==> d[i] == r[i]
  {
    b := RunStart(r, stale - 1);
    assert Follows(r, b, stale);
    FirstBreak(r, left, stale);
    FirstBreakBefore(r, left, stale, b);
    PartBefore(ForceBreak(r, left), left, stale, b);
  }

  lemma FirstBreakBefore(r: Cells, left: int, stale: int, b: int)
    requires Sane(r) && 0 <= left < b < stale < |r| && !IsContinuation(r[b])
    requires Part(r, 0, left) && (0 < left ==> Opens(r, 0))
    ensures forall i :: b <= i < |r| ==> ForceBreak(r, left)[i] == r[i]
  {
    var l := BreakLeft(r, left);
    if 0 < left {
      LeftMended(r, 0, left);
    }
    RightChangesBefore(l, left, b);
  }

  lemma PartBefore(d: Cells, left: int, stale: int, b: int)
    requires 0 <= left < b < stale <= |d| && Part(d, 0, left) && Closes(d, 0, left) && Opens(d, left)
    requires Part(d, left, stale) && !IsContinuation(d[b])
    ensures Part(d, 0, b) && Closes(d, 0, b)
  {
    EarlierClose(d, left, b, stale);
    PartShrinks(d, left, stale, left, b);
    PartsJoin(d, 0, left, b);
  }

  /** If all columns up to the second break are stray, then that clears them. */
  lemma StaleStrays(r: Cells, left: int, stale: int, right: int)
    requires Overhanging(r, left, stale, right) && !OnlyContinuations(r, left + 1, stale)
    requires OnlyContinuations(r, stale, right)
    ensures Intact(BrokenTwice(r, left, right))
  {
    var b := LastCopied(r, left, stale, right);
    PartShrinks(r, stale, |r|, right, |r|);
    StraysCleared(r, ForceBreak(r, left), b, right);
    SecondRight(BreakLeft(ForceBreak(r, left), right), b, right);
  }

  /** Otherwise stray columns stay behind the last character copied. */
  lemma StaleInside(r: Cells, left: int, stale: int, right: int, next: int)
    requires Overhanging(r, left, stale, right) && !OnlyContinuations(r, left + 1, stale)
    requires IsContinuation(r[stale]) && stale < next < right && !IsContinuation(r[next])
    ensures !Intact(BrokenTwice(r, left, right))
  {
    var b := LastCopied(r, left, stale, right);
    StraysStay(ForceBreak(r, left), b, next, right);
  }

  /** The exact condition for the row to consist of whole characters. */
  lemma OverhangingIff(r: Cells, left: int, stale: int, right: int)
    requires Overhanging(r, left, stale, right)
    ensures Intact(BrokenTwice(r, left, right))
       <==> !IsContinuation(r[stale]) || OnlyContinuations(r, stale, right) || OnlyContinuations(r, left + 1, stale)
  {
    if !IsContinuation(r[stale]) {
      StaleCharacter(r, left, stale, right);
    } else if OnlyContinuations(r, left + 1, stale) {
      StaleBehindRun(r, left, stale, right);
    } else if OnlyContinuations(r, stale, right) {
      StaleStrays(r, left, stale, right);
    } else {
      var next :| stale <= next < right && !IsContinuation(r[next]);
      StaleInside(r, left, stale, right, next);
    }
  }

  // Ranges that start behind the row: only its last cell is copied, to a place before both edges.

  /** Cell x has been overwritten with the last cell of a row, and both breaks are made behind it. */
  ghost predicate LastCellAt(p: Cells, r: Cells, x: int, left: int, right: int) {
    Intact(p) && 0 <= x < left <= right <= |p| && r == p[x := p[|p| - 1]]
  }

  lemma LastCell(p: Cells)
    requires Intact(p) && p != []
    ensures IsContinuation(p[|p| - 1]) || p[|p| - 1].width == 1
  {
    var i := |p| - 1;
    assert !IsContinuation(p[i]) ==> Follows(p, i, |p|) && i + p[i].width <= |p|;
  }

  lemma LastCellIsSane(p: Cells, r: Cells, x: int, left: int, right: int)
    requires LastCellAt(p, r, x, left, right)
    ensures Sane(r) && Part(r, 0, x) && (0 < x ==> Opens(r, 0)) && (!IsContinuation(p[x]) ==> Closes(r, 0, x))
    ensures Part(r, left, |r|) && Closes(r, left, |r|)
  {
    IntactIsSane(p);
    IntactParts(p, 0, x);
    IntactParts(p, left, |p|);
    PartAlike(p, r, 0, x);
    PartAlike(p, r, left, |p|);
    if !IsContinuation(p[x]) {
      EarlierClose(p, 0, x, |p|);
    }
  }

  /** A cell of the same shape changes nothing. */
  lemma SameShapeStays(p: Cells, r: Cells, x: int, left: int, right: int)
    requires LastCellAt(p, r, x, left, right) && SameShape(r[x], p[x])
    ensures Intact(BrokenTwice(r, left, right))
  {
    PartAlike(p, r, 0, |p|);
    IntactBreak(r, left);
    IntactBreak(ForceBreak(r, left), right);
  }

  /** The left side of the first break clears what is left of the overwritten character up to it. */
  lemma LeftOfBreak(p: Cells, r: Cells, x: int, left: int, right: int)
    requires LastCellAt(p, r, x, left, right) && !IsContinuation(p[x]) && left <= x + p[x].width
    ensures var d := BreakLeft(r, left);
      && Sane(d) && Part(d, 0, left) && Closes(d, 0, left) && Opens(d, 0)
      && forall i :: left <= i < |r| ==> d[i] == r[i]
  {
    LastCell(p);
    LastCellIsSane(p, r, x, left, right);
    assert Follows(p, x, |p|);
    var first := if IsContinuation(r[x]) then x else x + 1;
    if first == left {
      assert RunStart(r, left - 1) == x && BreakLeft(r, left) == r;
      assert Follows(r, x, left);
      PartsJoin(r, 0, x, left);
    } else {
      RunBefore(p, r, x, left, right, first);
      PartAlike(r, Cleared(r, first, left - 1), 0, x);
      ClearedPart(r, x, first, left);
      PartsJoin(Cleared(r, first, left - 1), 0, x, left);
    }
  }

  lemma ClearedPart(r: Cells, x: int, first: int, left: int)
    requires 0 <= x <= first < left <= |r| && (first == x || (first == x + 1 && r[x].width == 1))
    ensures var d := Cleared(r, first, left - 1); Part(d, x, left) && Closes(d, x, left)
  {
    var d := Cleared(r, first, left - 1);
    forall i | x <= i < left && !IsContinuation(d[i])
      ensures Follows(d, i, left) && i + d[i].width <= left
    {
    }
  }

  lemma RunBefore(p: Cells, r: Cells, x: int, left: int, right: int, first: int)
    requires LastCellAt(p, r, x, left, right) && !IsContinuation(p[x]) && left <= x + p[x].width
    requires first == (if IsContinuation(r[x]) then x else x + 1) && first < left
    requires Part(r, 0, x) && Closes(r, 0, x) && (IsContinuation(r[x]) || r[x].width == 1)
    ensures BreakLeft(r, left) == Cleared(r, first, left - 1)
  {
    assert Follows(p, x, |p|);
    var s := RunStart(r, left - 1);
    if IsContinuation(r[x]) && x > 0 && !IsContinuation(r[s]) {
      assert s < x && Follows(r, s, x);
    }
  }

  /** If the first break is not behind the overwritten character, then it clears what is left of it. */
  lemma OverwrittenIsCleared(p: Cells, r: Cells, x: int, left: int, right: int)
    requires LastCellAt(p, r, x, left, right) && !IsContinuation(p[x]) && left <= x + p[x].width
    ensures Intact(BrokenTwice(r, left, right))
  {
    var d := BreakLeft(r, left);
    LeftOfBreak(p, r, x, left, right);
    LastCellIsSane(p, r, x, left, right);
    PartAlike(r, d, left, |r|);
    var e := BreakRight(d, left);
    if left < |p| {
      IntactParts(p, |p|, |p|);
      PartAlike(p, d, |p|, |p|);
      RightMended(d, left, |d|);
      PartAlike(d, e, 0, left);
      ClosesStill(d, e, left, |d|);
      PartsJoin(e, 0, left, |e|);
    }
    IntactBreak(e, right);
  }

  /** What comes before a base cell that is before both edges stays as it is. */
  lemma BeforeBase(r: Cells, base: int, left: int, right: int)
    requires Sane(r) && 0 <= base < left <= right <= |r| && !IsContinuation(r[base])
    ensures var f := BrokenTwice(r, left, right);
      !IsContinuation(f[base]) && forall i :: 0 <= i < base ==> f[i] == r[i]
  {
    LeftChanges(r, left, base);
    var d := ForceBreak(r, left);
    RightChanges(BreakLeft(r, left), left);
    LeftChanges(d, right, base);
    RightChanges(BreakLeft(d, right), right);
  }

  /** A base cell in the middle of a character leaves that broken. */
  lemma CutStays(p: Cells, r: Cells, x: int, left: int, right: int)
    requires LastCellAt(p, r, x, left, right) && IsContinuation(p[x]) && !IsContinuation(r[x])
    ensures !Intact(BrokenTwice(r, left, right))
  {
    LastCellIsSane(p, r, x, left, right);
    BeforeBase(r, x, left, right);
    var b, f := RunStart(p, x), BrokenTwice(r, left, right);
    assert !IsContinuation(p[b]) && Follows(p, b, |p|);
    assert !Follows(f, b, |f|);
  }

  lemma StrayBehind(f: Cells, b: int)
    requires 0 <= b < |f| && !IsContinuation(f[b]) && b + f[b].width < |f|
    requires f[b].width >= 0 && IsContinuation(f[b + f[b].width])
    ensures !Intact(f)
  {
    assert !Follows(f, b, |f|);
  }

  /** ... and so does a character cut short before both edges ... */
  lemma ShortStays(p: Cells, r: Cells, x: int, left: int, right: int)
    requires LastCellAt(p, r, x, left, right) && !IsContinuation(p[x]) && x + p[x].width < left
    requires !IsContinuation(r[x]) && !SameShape(r[x], p[x])
    ensures !Intact(BrokenTwice(r, left, right))
  {
    LastCell(p);
    assert Follows(p, x, |p|);
    StaysBefore(p, r, x, left, right);
    StrayBehind(BrokenTwice(r, left, right), x);
  }

  /** ... or a stray column instead of it. */
  lemma StrayStays(p: Cells, r: Cells, x: int, left: int, right: int)
    requires LastCellAt(p, r, x, left, right) && !IsContinuation(p[x]) && x + p[x].width < left && IsContinuation(r[x])
    ensures !Intact(BrokenTwice(r, left, right))
  {
    var f := BrokenTwice(r, left, right);
    StaysBefore(p, r, x, left, right);
    if x > 0 {
      var b := CharacterBefore(p, x);
      StrayBehind(f, b);
    } else {
      assert IsContinuation(f[0]);
    }
  }

  /** What comes before the character behind the overwritten one stays as it is. */
  lemma StaysBefore(p: Cells, r: Cells, x: int, left: int, right: int)
    requires LastCellAt(p, r, x, left, right) && !IsContinuation(p[x]) && x + p[x].width < left
    ensures p[x].width > 0
    ensures forall i :: 0 <= i < x + p[x].width ==> BrokenTwice(r, left, right)[i] == r[i]
  {
    LastCellIsSane(p, r, x, left, right);
    assert Follows(p, x, |p|);
    BeforeBase(r, x + p[x].width, left, right);
  }

  lemma WholeCutStays(p: Cells, r: Cells, x: int, left: int, right: int)
    requires LastCellAt(p, r, x, left, right) && !IsContinuation(p[x])
    requires x + p[x].width < left && !SameShape(r[x], p[x])
    ensures !Intact(BrokenTwice(r, left, right))
  {
    if IsContinuation(r[x]) {
      StrayStays(p, r, x, left, right);
    } else {
      ShortStays(p, r, x, left, right);
    }
  }

  lemma CharacterBefore(p: Cells, x: int) returns (b: int)
    requires Intact(p) && 0 < x < |p| && !IsContinuation(p[x])
    ensures 0 <= b < x && !IsContinuation(p[b]) && b + p[b].width == x
  {
    b := RunStart(p, x - 1);
    assert Follows(p, b, |p|);
  }

  lemma LastCellIff(p: Cells, r: Cells, x: int, left: int, right: int)
    requires LastCellAt(p, r, x, left, right)
    ensures Intact(BrokenTwice(r, left, right))
       <==> SameShape(r[x], p[x]) || (!IsContinuation(p[x]) && left <= x + p[x].width)
  {
    if SameShape(r[x], p[x]) {
      SameShapeStays(p, r, x, left, right);
    } else if IsContinuation(p[x]) {
      CutStays(p, r, x, left, right);
    } else if left <= x + p[x].width {
      OverwrittenIsCleared(p, r, x, left, right);
    } else {
      WholeCutStays(p, r, x, left, right);
    }
  }

  // The exact condition for every range.

  /** Whether copying the columns from start to end to those from `left` up to `right`, within a row that
      has been extended up to there, leaves whole characters only. */
  predicate CopyFits(p: Cells, start: int, end: int, left: int, right: int)
    requires 0 <= start <= end + 1 && 0 <= left <= right <= |p| && right - left == end - start + 1
    requires -|p| < left - start < |p|
  {
    if left == right then EmptyFits(p, start, left)
    else if end < |p| then true
    else if start < |p| then StaleFits(p, start, left + |p| - start, right)
    else LastFits(p, left + |p| - start - 1, left)
  }

  /** Columns from `stale` on are not replaced, although the second break is made behind them. */
  predicate StaleFits(p: Cells, start: int, stale: int, right: int)
    requires 0 <= stale < |p|
  {
    !IsContinuation(p[stale]) || OnlyContinuations(p, stale, right) || OnlyContinuations(p, start + 1, |p|)
  }

  /** Only column x is replaced, by the last one, although the first break is made behind it. */
  predicate LastFits(p: Cells, x: int, left: int)
    requires 0 <= x < |p|
  {
    SameShape(p[|p| - 1], p[x]) || (!IsContinuation(p[x]) && left <= x + p[x].width)
  }

  /** An empty range right before column `start`, to be copied to before column `left`: fitting it may leave one cell,
      which is then copied to before the place where the character there is mended. */
  predicate EmptyFits(p: Cells, start: int, left: int)
    requires 0 <= start && 0 <= left <= |p| && -|p| < left - start < |p|
  {
    if left < start && |p| <= start then LastFits(p, left + |p| - start - 1, left)
    else if left > start && left == |p| then
      !IsContinuation(p[|p| - 1]) || IsContinuation(p[|p| - 1 - (left - start)])
    else true
  }

  /** What the buffer copies of a range: as much of it as there is. */
  lemma Fitted(start: int, end: int, offset: int, size: int)
    requires 0 <= start <= end && 0 <= start + offset && end + offset < size && -size < offset
    ensures Clamp(start, offset, size) == (if start < size then start else size - 1)
    ensures Clamp(end, offset, size) == (if end < size then end else size - 1)
  {
  }

  /** Inside of the row, copying only cuts characters at the two edges, where they are mended. */
  lemma CopyWithin(p: Cells, start: int, end: int, offset: int, r: Cells, left: int, right: int)
    requires Intact(p) && 0 <= start <= end < |p| && 0 <= left == start + offset && right == end + 1 + offset <= |p|
    requires r == Copied(p, start, end, offset)
    ensures Joined(r, left, right) && Intact(BrokenTwice(r, left, right))
    ensures Repaired(r, BrokenTwice(r, left, right), left, right)
  {
    CopiedIsRange(p, start, end, offset, r, end + 1, left, right);
    RangeParts(p, start, end + 1, offset, r, left, right);
    BreaksMend(r, left, right);
  }

  lemma SameContinuations(p: Cells, r: Cells, lo: int, hi: int, offset: int, lo': int, hi': int)
    requires 0 <= lo && hi <= |p| == |r| && 0 <= lo' == lo + offset && hi' == hi + offset && hi' <= |r|
    requires forall i {:trigger r[i]} :: lo' <= i < hi' ==> r[i] == p[i - offset]
    ensures OnlyContinuations(r, lo', hi') <==> OnlyContinuations(p, lo, hi)
  {
    forall i | OnlyContinuations(r, lo', hi') && lo <= i < hi
      ensures IsContinuation(p[i])
    {
      assert r[i + offset] == p[i + offset - offset];
    }
  }

  lemma OverhangFits(p: Cells, start: int, offset: int, r: Cells, left: int, stale: int, right: int)
    requires Intact(p) && RangeCopied(p, start, |p|, offset, r, left, stale) && stale < right <= |p|
    ensures Intact(BrokenTwice(r, left, right)) <==> StaleFits(p, start, stale, right)
  {
    RangeParts(p, start, |p|, offset, r, left, stale);
    OverhangingIff(r, left, stale, right);
    SameFits(p, start, offset, r, left, stale, right);
  }

  lemma SameFits(p: Cells, start: int, offset: int, r: Cells, left: int, stale: int, right: int)
    requires RangeCopied(p, start, |p|, offset, r, left, stale) && stale < right <= |p|
    ensures !IsContinuation(r[stale]) || OnlyContinuations(r, stale, right) || OnlyContinuations(r, left + 1, stale)
       <==> StaleFits(p, start, stale, right)
  {
    SameContinuations(p, r, stale, right, 0, stale, right);
    SameContinuations(p, r, start + 1, |p|, offset, left + 1, stale);
  }

  lemma OverhangCopied(p: Cells, start: int, end: int, offset: int, r: Cells, left: int, right: int)
    requires Intact(p) && 0 <= start < |p| <= end && 0 <= left == start + offset && right == end + 1 + offset <= |p|
    requires r == Copied(p, start, |p| - 1, offset)
    ensures Intact(BrokenTwice(r, left, right)) <==> CopyFits(p, start, end, left, right)
  {
    var stale := left + |p| - start;
    CopiedIsRange(p, start, |p| - 1, offset, r, |p|, left, stale);
    OverhangFits(p, start, offset, r, left, stale, right);
  }

  lemma LastCopiedFits(p: Cells, start: int, end: int, offset: int, r: Cells, left: int, right: int)
    requires Intact(p) && p != [] && |p| <= start <= end
    requires 0 <= left == start + offset && right == end + 1 + offset <= |p|
    requires -|p| < offset && r == Copied(p, |p| - 1, |p| - 1, offset)
    ensures Intact(BrokenTwice(r, left, right)) <==> CopyFits(p, start, end, left, right)
  {
    var x := left + |p| - start - 1;
    OneCopied(p, x, offset, r);
    LastCellIff(p, r, x, left, right);
  }

  // Empty ranges.

  /** A break mends the run that starts at its edge, if everything else is whole. */
  lemma EdgeRunMended(d: Cells, left: int)
    requires Sane(d) && 0 <= left < |d| && Part(d, 0, left) && (0 < left ==> Opens(d, 0)) && Closes(d, 0, left)
    requires Part(d, left + 1, |d|) && Closes(d, left + 1, |d|)
    ensures Intact(BreakRight(d, left))
  {
    var last := RunEnd(d, left);
    PartShrinks(d, left + 1, |d|, last + 1, |d|);
    if !IsContinuation(d[left]) && left + d[left].width == last + 1 {
      assert BreakRight(d, left) == d;
      ThreeParts(d, left, last + 1);
    } else {
      var first := if !IsContinuation(d[left]) && left + d[left].width <= last then left + d[left].width else left;
      assert BreakRight(d, left) == Cleared(d, first, last);
      RunClearedIntact(d, Cleared(d, first, last), left, first, last);
    }
  }

  /** One cell has been overwritten, and the breaks are made right there. */
  lemma EdgeOverwritten(p: Cells, r: Cells, left: int, y: int)
    requires Intact(p) && 0 <= left < |p| && 0 <= y < |p| && r == p[left := p[y]]
    ensures Intact(BrokenTwice(r, left, left))
  {
    IntactIsSane(p);
    IntactParts(p, 0, left);
    IntactParts(p, left + 1, |p|);
    PartAlike(p, r, 0, left);
    var d := BreakLeft(r, left);
    if 0 < left {
      LeftMended(r, 0, left);
    }
    PartAlike(p, d, left + 1, |p|);
    EdgeRunMended(d, left);
    IntactBreak(BreakRight(d, left), left);
  }

  /** The last cell has been overwritten, and the breaks are made behind it. */
  lemma EndOverwrittenIff(p: Cells, r: Cells, y: int)
    requires Intact(p) && 0 <= y < |p| - 1 && r == p[|p| - 1 := p[y]]
    ensures Intact(BrokenTwice(r, |p|, |p|)) <==> !(IsContinuation(p[|p| - 1]) && !IsContinuation(p[y]))
  {
    IntactIsSane(p);
    if IsContinuation(p[|p| - 1]) && !IsContinuation(p[y]) {
      EndCutStays(p, r, y);
    } else if !IsContinuation(p[|p| - 1]) && IsContinuation(p[y]) {
      EndStrayCleared(p, r, y);
    } else {
      forall i | 0 <= i < |r| && !IsContinuation(r[i])
        ensures Follows(r, i, |r|)
      {
        assert i < |p| - 1 ==> Follows(p, i, |p|);
      }
      LeftMended(r, 0, |r|);
      IntactBreak(BreakLeft(r, |r|), |r|);
    }
  }

  /** A stray column at the end of the row is cleared. */
  lemma EndStrayCleared(p: Cells, r: Cells, y: int)
    requires Intact(p) && 0 <= y < |p| - 1 && r == p[|p| - 1 := p[y]]
    requires !IsContinuation(p[|p| - 1]) && IsContinuation(p[y])
    ensures Intact(BrokenTwice(r, |p|, |p|))
  {
    var last := |p| - 1;
    LastCell(p);
    var b := CharacterBefore(p, last);
    assert Follows(p, b, |p|);
    assert r[b] == p[b] && forall j :: b < j <= last ==> IsContinuation(r[j]);
    assert RunStart(r, last) == b;
    var d := Cleared(r, last, last);
    assert BreakLeft(r, |p|) == d;
    PartAlike(p, d, 0, |p|);
    IntactBreak(d, |p|);
  }

  /** A character that ended the row is cut by a base cell, which the breaks leave there. */
  lemma EndCutStays(p: Cells, r: Cells, y: int)
    requires Intact(p) && Sane(r) && 0 <= y < |p| - 1 && r == p[|p| - 1 := p[y]]
    requires IsContinuation(p[|p| - 1]) && !IsContinuation(p[y])
    ensures !Intact(BrokenTwice(r, |p|, |p|))
  {
    var last, b := |p| - 1, RunStart(p, |p| - 1);
    assert Follows(p, b, |p|);
    var d := ForceBreak(r, |p|);
    assert RunStart(r, last) == last;
    assert d == MendRun(r, last, last) && !IsContinuation(d[last]) && d[last].width == 1;
    assert RunStart(d, last) == last && ForceBreak(d, |p|) == d;
    assert d[b] == p[b] && !Follows(d, b, |d|);
  }

  /** What fitting leaves of an empty range: nothing, or one cell, where to is known. */
  lemma FittedEmpty(start: int, offset: int, size: int, first: int, last: int, left: int)
    requires 0 <= start && 0 <= left == start + offset <= size && -size < offset < size
    requires first == Clamp(start, offset, size) && last == Clamp(start - 1, offset, size)
    ensures 0 <= first <= last + 1 && first < size && last < size
    ensures 0 <= first + offset < size && 0 <= last + offset < size
    ensures if offset < 0 && size <= start then first == last == size - 1
            else if offset > 0 && left == size then first == last == size - 1 - offset
            else first == last + 1 || (first == last && (offset == 0 || (first + offset == left && left < size)))
  {
  }

  lemma EmptyCopyIff(p: Cells, start: int, offset: int, first: int, last: int, r: Cells, left: int)
    requires Intact(p) && 0 <= start && 0 <= left == start + offset <= |p| && -|p| < offset < |p|
    requires first == Clamp(start, offset, |p|) && last == Clamp(start - 1, offset, |p|)
    requires 0 <= first <= last + 1 && last < |p| && 0 <= first + offset && last + offset < |p|
    requires r == Copied(p, first, last, offset)
    ensures Intact(BrokenTwice(r, left, left)) <==> EmptyFits(p, start, left)
  {
    FittedEmpty(start, offset, |p|, first, last, left);
    if first == last + 1 {
      NothingMoved(p, first, last, offset, r, left);
    } else {
      OneMoved(p, first, offset, r, first + offset);
      CellCopyIff(p, start, offset, first, r, first + offset, left);
    }
  }

  lemma NothingMoved(p: Cells, first: int, last: int, offset: int, r: Cells, left: int)
    requires Intact(p) && 0 <= first == last + 1 && last < |p| && 0 <= first + offset && last + offset < |p|
    requires r == Copied(p, first, last, offset) && 0 <= left <= |p|
    ensures r == p && Intact(BrokenTwice(r, left, left))
  {
    assert r == p;
    IntactBreak(p, left);
    IntactBreak(ForceBreak(p, left), left);
  }

  lemma OneMoved(p: Cells, first: int, offset: int, r: Cells, x: int)
    requires 0 <= first < |p| && 0 <= x == first + offset < |p| && r == Copied(p, first, first, offset)
    ensures r == p[x := p[first]]
  {
  }

  lemma CellCopyIff(p: Cells, start: int, offset: int, y: int, r: Cells, x: int, left: int)
    requires Intact(p) && 0 <= start && 0 <= left == start + offset <= |p| && -|p| < offset < |p|
    requires 0 <= y < |p| && 0 <= x == y + offset < |p| && r == p[x := p[y]]
    requires if offset < 0 && |p| <= start then y == |p| - 1
             else if offset > 0 && left == |p| then x == |p| - 1
             else offset == 0 || (x == left && left < |p|)
    ensures Intact(BrokenTwice(r, left, left)) <==> EmptyFits(p, start, left)
  {
    if offset < 0 && |p| <= start {
      LastCellMovedIff(p, start, offset, r, x, left);
    } else if offset > 0 && left == |p| {
      EndCellIff(p, start, offset, r, y, left);
    } else if offset == 0 {
      assert r == p;
      IntactBreak(p, left);
      IntactBreak(ForceBreak(p, left), left);
    } else {
      EdgeOverwritten(p, r, left, y);
    }
  }

  lemma LastCellMovedIff(p: Cells, start: int, offset: int, r: Cells, x: int, left: int)
    requires Intact(p) && 0 <= left == start + offset <= |p| <= start && -|p| < offset < 0
    requires 0 <= x == |p| - 1 + offset && r == p[x := p[|p| - 1]]
    ensures Intact(BrokenTwice(r, left, left)) <==> EmptyFits(p, start, left)
  {
    LastCellIff(p, r, x, left, left);
  }

  lemma EndCellIff(p: Cells, start: int, offset: int, r: Cells, y: int, left: int)
    requires Intact(p) && 0 <= start && left == start + offset == |p| && 0 < offset < |p|
    requires 0 <= y == |p| - 1 - offset && r == p[|p| - 1 := p[y]]
    ensures Intact(BrokenTwice(r, left, left)) <==> EmptyFits(p, start, left)
  {
    EndOverwrittenIff(p, r, y);
  }

  /** guac_terminal_copy_columns keeps every character of the row whole if and only if the range fits:
      always, if it is inside of the row. */
  lemma CopyKeepsWholeIff(c: Cells, blank: Char, start: int, end: int, offset: int, p: Cells, first: int, last: int,
                          r: Cells, left: int, right: int)
    requires Intact(c) && IsBase(blank) && blank.width == 1 && 0 <= start <= end + 1 && 0 <= left == start + offset
    requires p == Padded(c, blank, right) && right == end + 1 + offset && -|p| < offset < |p|
    requires first == Clamp(start, offset, |p|) && last == Clamp(end, offset, |p|)
    requires 0 <= first <= last + 1 && last < |p| && 0 <= first + offset
    requires last + offset < |p| && r == Copied(p, first, last, offset)
    ensures Intact(BrokenTwice(r, left, right)) <==> CopyFits(p, start, end, left, right)
  {
    PaddedIntact(c, blank, right);
    if start == end + 1 {
      EmptyCopyIff(p, start, offset, first, last, r, left);
    } else {
      SomeCopyIff(p, start, end, offset, first, last, r, left, right);
    }
  }

  lemma SomeCopyIff(p: Cells, start: int, end: int, offset: int, first: int, last: int, r: Cells, left: int, right: int)
    requires Intact(p) && 0 <= start <= end && 0 <= left == start + offset && right == end + 1 + offset <= |p|
    requires -|p| < offset && first == Clamp(start, offset, |p|) && last == Clamp(end, offset, |p|)
    requires 0 <= first <= last < |p| && 0 <= first + offset
    requires last + offset < |p| && r == Copied(p, first, last, offset)
    ensures Intact(BrokenTwice(r, left, right)) <==> CopyFits(p, start, end, left, right)
  {
    Fitted(start, end, offset, |p|);
    if end < |p| {
      CopyWithin(p, start, end, offset, r, left, right);
    } else if start < |p| {
      OverhangCopied(p, start, end, offset, r, left, right);
    } else {
      LastCopiedFits(p, start, end, offset, r, left, right);
    }
  }

  /** Insert mode in the last column, which copies an empty range by one: the row stays whole if and only if no
      character of two columns ends there. */
  lemma InsertInLastColumnIff(p: Cells, blank: Char)
    requires Intact(p) && IsSingle(blank) && |p| > 1
    ensures var n := |p|;
      && Clamp(n - 1, 1, n) == Clamp(n - 2, 1, n) == n - 2
      && (Intact(BrokenTwice(Copied(p, n - 2, n - 2, 1), n, n))
          <==> !(IsContinuation(p[n - 1]) && !IsContinuation(p[n - 2])))
  {
    var n := |p|;
    CopyKeepsWholeIff(p, blank, n - 1, n - 2, 1, p, n - 2, n - 2, Copied(p, n - 2, n - 2, 1), n, n);
  }

  lemma OneCopied(p: Cells, x: int, offset: int, r: Cells)
    requires p != [] && 0 <= x == |p| - 1 + offset < |p| && r == Copied(p, |p| - 1, |p| - 1, offset)
    ensures r == p[x := p[|p| - 1]]
  {
  }

  /** What is left of a range can be copied. */
  lemma FittedRange(start: int, end: int, offset: int, size: int, first: int, last: int)
    requires 0 <= start <= end + 1 && 0 <= start + offset && end + offset < size && -size < offset < size
    requires first == Clamp(start, offset, size) && last == Clamp(end, offset, size)
    ensures 0 <= first <= last + 1 && last < size && 0 <= first + offset && last + offset < size
    ensures start <= end ==> first <= last && (end < size ==> first == start && last == end)
  {
  }

  /** ... and if that is all of it, then only characters at the two edges are cut. */
  lemma CopyRepairs(c: Cells, blank: Char, start: int, end: int, offset: int, p: Cells, r: Cells, left: int, right: int)
    requires Intact(c) && IsSingle(blank) && 0 <= start <= end < |p| && 0 <= left == start + offset
    requires p == Padded(c, blank, right) && right == end + 1 + offset
    requires r == Copied(p, start, end, offset)
    ensures Repaired(r, BrokenTwice(r, left, right), left, right)
  {
    PaddedIntact(c, blank, right);
    CopyWithin(p, start, end, offset, r, left, right);
  }

  lemma SinglesCopied(c: Cells, blank: Char, right: int, p: Cells, first: int, last: int, offset: int, r: Cells)
    requires p == Padded(c, blank, right) && IsSingle(blank) && AllSingle(c)
    requires 0 <= first <= last + 1 && last < |p| && 0 <= first + offset
    requires last + offset < |p| && r == Copied(p, first, last, offset)
    ensures AllSingle(r)
  {
  }

  /** The columns from start to end of a row, extended up to column `right`, are copied, or what is left of them
      in that row: which are those from `first` to `last`. */
  ghost predicate IsCopy(c: Cells, blank: Char, start: int, end: int, offset: int, p: Cells, first: int, last: int,
                         left: int, right: int, copied: Cells) {
    && Intact(c) && IsSingle(blank) && 0 <= start <= end + 1 && 0 <= left == start + offset
    && right == end + 1 + offset && p == Padded(c, blank, right) && -|p| < offset < |p|
    && first == Clamp(start, offset, |p|) && last == Clamp(end, offset, |p|)
    && 0 <= first <= last + 1 && last < |p| && 0 <= first + offset && last + offset < |p|
    && copied == Copied(p, first, last, offset)
  }

  /** The row consists of whole characters exactly if the range fits. Nothing has been changed but to become a space,
      and only what is cut at the two edges has been, if the range is inside of the row. */
  ghost predicate CopyOutcome(p: Cells, start: int, end: int, copied: Cells, after: Cells, left: int, right: int)
    requires 0 <= start <= end + 1 && 0 <= left <= right <= |p| && right - left == end - start + 1
    requires -|p| < left - start < |p|
  {
    && (Intact(after) <==> CopyFits(p, start, end, left, right))
    && OnlyClears(copied, after)
    && (start <= end < |p| ==> Repaired(copied, after, left, right))
  }

  /** What the breaks make of a row whose columns have been copied. */
  lemma CopyBroken(c: Cells, blank: Char, start: int, end: int, offset: int, p: Cells, first: int, last: int, left: int,
                   right: int, copied: Cells) returns (after: Cells)
    requires IsCopy(c, blank, start, end, offset, p, first, last, left, right, copied)
    ensures 0 <= left <= right <= |p| == |copied|
    ensures after == BrokenTwice(copied, left, right) && CopyOutcome(p, start, end, copied, after, left, right)
    ensures AllSingle(c) ==> AllSingle(copied)
  {
    after := BrokenTwice(copied, left, right);
    CopyKeepsWholeIff(c, blank, start, end, offset, p, first, last, copied, left, right);
    BreaksOnlyClear(copied, left, right);
    FittedRange(start, end, offset, |p|, first, last);
    if start <= end < |p| {
      CopyRepairs(c, blank, start, end, offset, p, copied, left, right);
    }
    if AllSingle(c) {
      SinglesCopied(c, blank, right, p, first, last, offset, copied);
    }
  }

  /** A range that does not fit: deleting two characters at the start of a row of six, on a screen of eight
      columns, which copies columns 2 to 7 two to the left. */
  lemma CopyFromBeyondCuts(narrow: Char, wide: Char)
    requires IsSingle(narrow) && !IsContinuation(wide) && wide.width == 2
    ensures var row := [narrow, narrow, narrow, wide, Continuation(wide), narrow];
      && Intact(row) && Clamp(2, -2, 6) == 2 && Clamp(7, -2, 6) == 5
      && !CopyFits(row, 2, 7, 0, 6) && !Intact(BrokenTwice(Copied(row, 2, 5, -2), 0, 6))
  {
    var row := [narrow, narrow, narrow, wide, Continuation(wide), narrow];
    forall i | 0 <= i < 6 && !IsContinuation(row[i])
      ensures Follows(row, i, 6) && i + row[i].width <= 6
    {
    }
    assert IsContinuation(row[4]) && !IsContinuation(row[5]) && !IsContinuation(row[3]);
    CopyKeepsWholeIff(row, narrow, 2, 7, -2, row, 2, 5, Copied(row, 2, 5, -2), 0, 6);
  }
}
