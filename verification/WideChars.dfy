/** Rows of characters that may take several columns, and the repair of characters that have been
    cut in two: __guac_terminal_force_break of src/terminal/terminal.c. */
module WideChars {
  import opened TerminalTypes

  type Cells = seq<Char>

  predicate IsContinuation(ch: Char) {
    ch.value == CONTINUATION
  }

  predicate IsSpace(ch: Char) {
    ch.value == SPACE && ch.width == 1
  }

  function Space(like: Char): Char {
    Char(SPACE, like.attributes, 1)
  }

  /** Every base cell is the start of a character of at least one column. */
  ghost predicate Sane(c: Cells) {
    forall i :: 0 <= i < |c| && !IsContinuation(c[i]) ==> c[i].width >= 1
  }

  /** The base cell at i is followed by its continuation cells, as far as these lie before hi, and
      by no others. */
  ghost predicate Follows(c: Cells, i: int, hi: int)
    requires 0 <= i < hi <= |c|
  {
    && c[i].width >= 1
    && (forall j :: i < j < hi && j < i + c[i].width ==> IsContinuation(c[j]))
    && (i + c[i].width < hi ==> !IsContinuation(c[i + c[i].width]))
  }

  /** The cells from lo up to hi could have been cut from a row of whole characters. */
  ghost predicate Part(c: Cells, lo: int, hi: int) {
    && 0 <= lo <= hi <= |c|
    && forall i {:trigger Follows(c, i, hi)} :: lo <= i < hi && !IsContinuation(c[i]) ==> Follows(c, i, hi)
  }

  /** No character is cut at lo on its left side. */
  ghost predicate Opens(c: Cells, lo: int) {
    0 <= lo < |c| ==> !IsContinuation(c[lo])
  }

  /** No character that starts from lo on is cut at hi. */
  ghost predicate Closes(c: Cells, lo: int, hi: int) {
    forall i :: 0 <= lo <= i < hi <= |c| && !IsContinuation(c[i]) ==> i + c[i].width <= hi
  }

  /** The row is a sequence of base cells, each followed by a continuation cell for every further
      column of its character. */
  ghost predicate Intact(c: Cells) {
    Opens(c, 0) && Part(c, 0, |c|) && Closes(c, 0, |c|)
  }

  /** Every character that lies between lo and hi as a whole is the same in r. */
  ghost predicate KeepsWhole(c: Cells, r: Cells, lo: int, hi: int) {
    |r| == |c| && forall i, j :: 0 <= lo <= i <= j < hi <= |c| && !IsContinuation(c[i]) && j < i + c[i].width <= hi
                                 ==> r[j] == c[j]
  }

  /** No cell has changed but to become a space. */
  ghost predicate OnlyClears(c: Cells, r: Cells) {
    |r| == |c| && forall i :: 0 <= i < |c| && r[i] != c[i] ==> IsSpace(r[i])
  }

  /** Clears the cells from start to end. */
  function Cleared(c: Cells, start: int, end: int): (r: Cells)
    requires 0 <= start <= end < |c|
    ensures |r| == |c|
    ensures forall i :: 0 <= i < |c| ==> r[i] == if start <= i <= end then Space(c[start]) else c[i]
  {
    seq(|c|, i requires 0 <= i < |c| => if start <= i <= end then Space(c[start]) else c[i])
  }

  /** The cell that the character with a continuation cell at i starts in, if any. */
  function RunStart(c: Cells, i: int): (s: int)
    requires 0 <= i < |c|
    ensures 0 <= s <= i && (s == 0 || !IsContinuation(c[s]))
    ensures forall j :: s < j <= i ==> IsContinuation(c[j])
  {
    if i > 0 && IsContinuation(c[i]) then RunStart(c, i - 1) else i
  }

  /** The last of the continuation cells that follow cell i. */
  function RunEnd(c: Cells, i: int): (e: int)
    requires 0 <= i < |c|
    ensures i <= e < |c| && Opens(c, e + 1)
    ensures forall j :: i < j <= e ==> IsContinuation(c[j])
    decreases |c| - i
  {
    if i + 1 < |c| && IsContinuation(c[i + 1]) then RunEnd(c, i + 1) else i
  }

  /** Clears the run from `start` to `end` unless it is one whole character; if a whole character
      is followed by stray continuation cells, clears only those. No width is negative. */
  function MendRun(c: Cells, start: int, end: int): (r: Cells)
    requires 0 <= start <= end < |c|
    ensures |r| == |c|
  {
    var first := if !IsContinuation(c[start]) && 0 <= c[start].width < end - start + 1
                 then start + c[start].width else start;
    if IsContinuation(c[first]) || c[first].width != end - first + 1 then Cleared(c, first, end) else c
  }

  function BreakLeft(c: Cells, edge: int): (r: Cells)
    requires edge <= |c|
    ensures |r| == |c|
  {
    if edge > 0 then MendRun(c, RunStart(c, edge - 1), edge - 1) else c
  }

  function BreakRight(c: Cells, edge: int): (r: Cells)
    ensures |r| == |c|
  {
    if 0 <= edge < |c| then MendRun(c, edge, RunEnd(c, edge)) else c
  }

  /** __guac_terminal_force_break: mends both sides of an edge. */
  function ForceBreak(c: Cells, edge: int): (r: Cells)
    requires edge <= |c|
    ensures |r| == |c|
  {
    BreakRight(BreakLeft(c, edge), edge)
  }

  /** r is c with broken characters cleared between lo and hi. */
  ghost predicate Mended(c: Cells, r: Cells, lo: int, hi: int) {
    Part(r, lo, hi) && KeepsWhole(c, r, lo, hi)
  }

  /** Clearing a run that holds no whole character leaves a part a part. */
  lemma ClearRun(c: Cells, lo: int, hi: int, first: int, last: int)
    requires Part(c, lo, hi) && 0 <= first <= last < |c| && (last + 1 < hi ==> Opens(c, last + 1))
    requires forall i :: lo <= i < hi && i <= last && !IsContinuation(c[i]) ==>
        i + c[i].width <= first || (i == first && i + c[i].width > hi)
    ensures Mended(c, Cleared(c, first, last), lo, hi)
  {
    var r := Cleared(c, first, last);
    forall i | lo <= i < hi && !IsContinuation(r[i])
      ensures Follows(r, i, hi)
    {
      assert IsContinuation(c[i]) || Follows(c, i, hi);
    }
  }

  /** The last run before an edge is a character, which is cleared if the edge cuts it. */
  lemma LastRun(c: Cells, lo: int, edge: int) returns (s: int)
    requires Sane(c) && Part(c, lo, edge) && Opens(c, lo) && lo < edge
    ensures lo <= s < edge && !IsContinuation(c[s]) && s + c[s].width >= edge
    ensures forall j :: s < j < edge ==> IsContinuation(c[j])
    ensures BreakLeft(c, edge) == if s + c[s].width == edge then c else Cleared(c, s, edge - 1)
  {
    s := RunStart(c, edge - 1);
    assert Follows(c, s, edge);
  }

  lemma EarlierClose(c: Cells, lo: int, s: int, hi: int)
    requires Part(c, lo, hi) && lo <= s < hi && !IsContinuation(c[s])
    ensures Closes(c, lo, s)
  {
    forall i | lo <= i < s && !IsContinuation(c[i])
      ensures i + c[i].width <= s
    {
      assert Follows(c, i, hi);
    }
  }

  /** Mending the left side of an edge closes the characters before it. */
  lemma LeftMended(c: Cells, lo: int, edge: int)
    requires Sane(c) && Part(c, lo, edge) && Opens(c, lo) && lo < edge
    ensures Mended(c, BreakLeft(c, edge), lo, edge) && Opens(BreakLeft(c, edge), lo)
    ensures Closes(BreakLeft(c, edge), lo, edge)
    ensures OnlyClears(c, BreakLeft(c, edge))
    ensures forall i :: 0 <= i < lo || edge <= i < |c| ==> BreakLeft(c, edge)[i] == c[i]
  {
    var s := LastRun(c, lo, edge);
    EarlierClose(c, lo, s, edge);
    if s + c[s].width > edge {
      ClearRun(c, lo, edge, s, edge - 1);
    }
  }

  /** The run after an edge is cleared unless it is a character followed by a base cell; if it is
      a whole character followed by strays then these start at or after the end of the part. */
  lemma FirstRun(c: Cells, edge: int, hi: int) returns (first: int, last: int)
    requires Sane(c) && Part(c, edge, hi) && edge < hi
    ensures edge <= first <= last < |c| && (forall j :: edge < j <= last ==> IsContinuation(c[j])) && Opens(c, last + 1)
    ensures first == edge || (first >= hi && !IsContinuation(c[edge]) && first == edge + c[edge].width)
    ensures first == edge && !IsContinuation(c[edge]) ==> edge + c[edge].width > last
    ensures BreakRight(c, edge)
         == if !IsContinuation(c[first]) && first + c[first].width == last + 1 then c else Cleared(c, first, last)
  {
    last := RunEnd(c, edge);
    first := edge;
    if !IsContinuation(c[edge]) {
      assert Follows(c, edge, hi);
      if edge + c[edge].width <= last {
        first := edge + c[edge].width;
      }
    }
  }

  /** Mending the right side of an edge opens the characters after it; another part may follow. */
  lemma RightMended(c: Cells, edge: int, hi: int)
    requires Sane(c) && Part(c, edge, hi) && edge < hi && Part(c, hi, |c|)
    ensures Mended(c, BreakRight(c, edge), edge, hi) && Mended(c, BreakRight(c, edge), hi, |c|)
    ensures Opens(BreakRight(c, edge), edge) && OnlyClears(c, BreakRight(c, edge))
    ensures forall i :: 0 <= i < edge ==> BreakRight(c, edge)[i] == c[i]
  {
    var first, last := FirstRun(c, edge, hi);
    assert !IsContinuation(c[edge]) ==> Follows(c, edge, hi);
    if IsContinuation(c[first]) || first + c[first].width != last + 1 {
      ClearRun(c, edge, hi, first, last);
      ClearRun(c, hi, |c|, first, last);
    }
  }

  lemma MendedSame(c: Cells, r: Cells, lo: int, hi: int)
    requires Part(c, lo, hi) && |r| == |c| && forall i :: lo <= i < hi ==> r[i] == c[i]
    ensures Mended(c, r, lo, hi)
  {
    forall i | lo <= i < hi && !IsContinuation(r[i])
      ensures Follows(r, i, hi)
    {
      assert Follows(c, i, hi);
    }
  }

  lemma MendedAgain(c: Cells, d: Cells, r: Cells, lo: int, hi: int)
    requires Mended(c, d, lo, hi) && Mended(d, r, lo, hi)
    ensures Mended(c, r, lo, hi)
  {
    forall i, j | lo <= i <= j < hi && !IsContinuation(c[i]) && j < i + c[i].width <= hi
      ensures r[j] == c[j]
    {
      assert d[i] == c[i] && d[j] == c[j];
    }
  }

  lemma PartShrinks(c: Cells, lo: int, hi: int, from: int, upto: int)
    requires Part(c, lo, hi) && lo <= from <= upto <= hi
    ensures Part(c, from, upto)
  {
    forall i | from <= i < upto && !IsContinuation(c[i])
      ensures Follows(c, i, upto)
    {
      assert Follows(c, i, hi);
    }
  }

  lemma PartsJoin(c: Cells, lo: int, mid: int, hi: int)
    requires Part(c, lo, mid) && Closes(c, lo, mid) && Opens(c, mid) && Part(c, mid, hi)
    ensures Part(c, lo, hi) && (Closes(c, mid, hi) ==> Closes(c, lo, hi))
  {
    forall i | lo <= i < hi && !IsContinuation(c[i])
      ensures Follows(c, i, hi)
    {
      assert i < mid ==> Follows(c, i, mid);
      assert i >= mid ==> Follows(c, i, hi);
    }
  }

  /** The two repairs that follow every change of a range of columns. */
  function BrokenTwice(c: Cells, first: int, second: int): (r: Cells)
    requires first <= |c| && second <= |c|
    ensures |r| == |c|
  {
    ForceBreak(ForceBreak(c, first), second)
  }

  /** r is what the two repairs make of c. */
  ghost predicate BreaksTo(c: Cells, first: int, second: int, r: Cells)
    requires first <= |c| && second <= |c|
  {
    forall d {:trigger ForceBreak(d, second)} :: d == ForceBreak(c, first) ==> r == ForceBreak(d, second)
  }

  lemma BrokenIsBroken(c: Cells, first: int, second: int, r: Cells)
    requires first <= |c| && second <= |c|
    ensures BreaksTo(c, first, second, r) <==> r == BrokenTwice(c, first, second)
  {
    var d := ForceBreak(c, first);
    assert BrokenTwice(c, first, second) == ForceBreak(d, second);
  }

  /** r is what is left of c once every character cut at the edges has been cleared. */
  ghost predicate Repaired(c: Cells, r: Cells, e1: int, e2: int) {
    Mended(c, r, 0, e1) && Mended(c, r, e1, e2) && Mended(c, r, e2, |c|) && OnlyClears(c, r)
  }

  lemma BreaksOnlyClear(c: Cells, first: int, second: int)
    requires first <= |c| && second <= |c|
    ensures OnlyClears(c, BrokenTwice(c, first, second))
  {
    BreakOnlyClears(c, first);
    BreakOnlyClears(ForceBreak(c, first), second);
  }

  lemma BreakOnlyClears(c: Cells, edge: int)
    requires edge <= |c|
    ensures OnlyClears(c, ForceBreak(c, edge))
  {
    assert OnlyClears(c, BreakLeft(c, edge));
    assert OnlyClears(BreakLeft(c, edge), BreakRight(BreakLeft(c, edge), edge));
  }

  lemma RepairedAgain(c: Cells, d: Cells, r: Cells, e1: int, e2: int)
    requires Repaired(c, d, e1, e2) && Repaired(d, r, e1, e2)
    ensures Repaired(c, r, e1, e2)
  {
    MendedAgain(c, d, r, 0, e1);
    MendedAgain(c, d, r, e1, e2);
    MendedAgain(c, d, r, e2, |c|);
  }

  /** The first break, at the left edge of the part. */
  lemma FirstBreak(c: Cells, e1: int, e2: int)
    requires Sane(c) && e1 < e2 && Part(c, 0, e1) && Part(c, e1, e2) && Part(c, e2, |c|) && (0 < e1 ==> Opens(c, 0))
    ensures var r := ForceBreak(c, e1);
      Repaired(c, r, e1, e2) && Opens(r, 0) && Closes(r, 0, e1) && Opens(r, e1)
  {
    var d := BreakLeft(c, e1);
    if 0 < e1 {
      LeftMended(c, 0, e1);
    } else {
      MendedSame(c, c, 0, 0);
    }
    MendedSame(c, d, e1, e2);
    MendedSame(c, d, e2, |c|);
    var r := BreakRight(d, e1);
    RightMended(d, e1, e2);
    MendedSame(d, r, 0, e1);
    RepairedAgain(c, d, r, e1, e2);
  }

  lemma SecondLeft(c: Cells, e1: int, e2: int)
    requires Sane(c) && e1 < e2 && Part(c, 0, e1) && Part(c, e1, e2) && Part(c, e2, |c|)
    requires Opens(c, 0) && Closes(c, 0, e1) && Opens(c, e1)
    ensures var d := BreakLeft(c, e2);
      Repaired(c, d, e1, e2) && Opens(d, 0) && Part(d, 0, e2) && Closes(d, 0, e2)
  {
    var d := BreakLeft(c, e2);
    LeftMended(c, e1, e2);
    MendedSame(c, d, 0, e1);
    MendedSame(c, d, e2, |c|);
    PartsJoin(d, 0, e1, e2);
  }

  lemma SecondRight(d: Cells, e1: int, e2: int)
    requires Sane(d) && 0 <= e1 < e2 && Part(d, 0, e1) && Part(d, e1, e2) && Part(d, e2, |d|)
    requires Opens(d, 0) && Part(d, 0, e2) && Closes(d, 0, e2) && Closes(d, e2, |d|)
    ensures Repaired(d, BreakRight(d, e2), e1, e2) && Intact(BreakRight(d, e2))
  {
    var r := BreakRight(d, e2);
    if e2 < |d| {
      MendedSame(d, d, |d|, |d|);
      RightMended(d, e2, |d|);
    } else {
      MendedSame(d, d, e2, |d|);
    }
    MendedSame(d, r, 0, e1);
    MendedSame(d, r, e1, e2);
    MendedSame(d, r, 0, e2);
    ClosesStill(d, r, e2, |d|);
    PartsJoin(r, 0, e2, |r|);
  }

  lemma ClosesStill(c: Cells, r: Cells, lo: int, hi: int)
    requires Closes(c, lo, hi) && OnlyClears(c, r)
    ensures Closes(r, lo, hi)
  {
  }

  /** The second break, at the right edge, leaves only whole characters. */
  lemma SecondBreak(c: Cells, e1: int, e2: int)
    requires Sane(c) && e1 < e2 && Part(c, 0, e1) && Part(c, e1, e2) && Part(c, e2, |c|)
    requires Opens(c, 0) && Closes(c, 0, e1) && Opens(c, e1) && Closes(c, e2, |c|)
    ensures Repaired(c, ForceBreak(c, e2), e1, e2) && Intact(ForceBreak(c, e2))
  {
    var d := BreakLeft(c, e2);
    SecondLeft(c, e1, e2);
    ClosesStill(c, d, e2, |c|);
    SecondRight(d, e1, e2);
    RepairedAgain(c, d, BreakRight(d, e2), e1, e2);
  }

  /** The row has been joined from three parts of rows of whole characters. */
  ghost predicate Joined(c: Cells, e1: int, e2: int) {
    && Sane(c) && e1 < e2 && Part(c, 0, e1) && Part(c, e1, e2) && Part(c, e2, |c|)
    && (0 < e1 ==> Opens(c, 0)) && Closes(c, e2, |c|)
  }

  /** Where parts of rows have been joined at two edges, both breaks together leave a row of whole
      characters: each character that was whole is still there, and the rest has become spaces. */
  lemma BreaksMend(c: Cells, e1: int, e2: int)
    requires Joined(c, e1, e2)
    ensures Intact(BrokenTwice(c, e1, e2)) && Repaired(c, BrokenTwice(c, e1, e2), e1, e2)
  {
    var d := ForceBreak(c, e1);
    FirstBreak(c, e1, e2);
    ClosesStill(c, d, e2, |c|);
    SecondBreak(d, e1, e2);
    RepairedAgain(c, d, ForceBreak(d, e2), e1, e2);
  }

  // Rows of characters of one column, and the loops of the repair.

  predicate IsSingle(ch: Char) {
    !IsContinuation(ch) && ch.width == 1
  }

  ghost predicate AllSingle(cells: Cells) {
    forall i :: 0 <= i < |cells| ==> IsSingle(cells[i])
  }

  /** There is nothing to mend among characters of one column. */
  lemma SingleStays(cells: Cells, edge: int)
    requires edge <= |cells|
    ensures AllSingle(cells) ==> BreakLeft(cells, edge) == cells && BreakRight(cells, edge) == cells
  {
  }

  method FindRunStart(cells: Cells, end: int) returns (start: int)
    requires 0 <= end < |cells|
    ensures start == RunStart(cells, end) && (AllSingle(cells) ==> start == end)
  {
    start := end;
    while start > 0 && cells[start].value == CONTINUATION
      invariant 0 <= start <= end && RunStart(cells, start) == RunStart(cells, end)
      invariant AllSingle(cells) ==> start == end
    {
      start := start - 1;
    }
  }

  method FindRunEnd(cells: Cells, start: int) returns (end: int)
    requires 0 <= start < |cells|
    ensures end == RunEnd(cells, start) && (AllSingle(cells) ==> end == start)
  {
    end := start;
    while end + 1 < |cells| && cells[end + 1].value == CONTINUATION
      invariant start <= end < |cells| && RunEnd(cells, end) == RunEnd(cells, start)
      invariant AllSingle(cells) ==> end == start
    {
      end := end + 1;
    }
  }

  lemma SameBreaks(c: Cells, first: int, second: int, first': int, second': int)
    requires 0 <= first' <= second' <= |c| && first == first' && second == second'
    ensures BrokenTwice(c, first, second) == BrokenTwice(c, first', second')
  {
  }

  lemma BreaksOfSingles(c: Cells, first: int, second: int)
    requires AllSingle(c) && first <= |c| && second <= |c|
    ensures BrokenTwice(c, first, second) == c
  {
    SingleStays(c, first);
    SingleStays(c, second);
  }
}
