/** The copy pass of src/terminal/display.c, as a list of rectangles copied one after another.
    When does it yield what copying every cell at once would? */
module CopyPlans {
  import opened Grids

  /** What a pending operation of a screen cell says about copying: nothing, or the cell that is to
      be copied here. */
  datatype Source = Keep | From(row: int, col: int)

  /** A rectangle of cells that is filled from one at another place. */
  datatype Block = Block(row: int, col: int, height: int, width: int, srcRow: int, srcCol: int) {
    predicate Covers(r: int, c: int) {
      row <= r < row + height && col <= c < col + width
    }

    /** The source that a covered cell must have to be part of this block. */
    function Expected(r: int, c: int): Source {
      From(srcRow + (r - row), srcCol + (c - col))
    }

    predicate Inside(h: int, w: int) {
      && 0 <= row && 0 < height && row + height <= h && 0 <= col && 0 < width && col + width <= w
      && 0 <= srcRow && srcRow + height <= h && 0 <= srcCol && srcCol + width <= w
    }
  }

  /** Copies one rectangle; overlapping cells are read before they are written. */
  ghost function CopyBlock<T>(b: Block, screen: Grid<T>, h: nat, w: nat): (g: Grid<T>)
    requires IsGrid(screen, h, w) && b.Inside(h, w)
    ensures IsGrid(g, h, w)
  {
    seq(h, r requires 0 <= r < h => seq(w, c requires 0 <= c < w =>
      if b.Covers(r, c) then screen[b.Expected(r, c).row][b.Expected(r, c).col] else screen[r][c]))
  }

  ghost predicate AllInside(plan: seq<Block>, h: nat, w: nat) {
    forall k :: 0 <= k < |plan| ==> plan[k].Inside(h, w)
  }

  /** The screen after copying the rectangles of the plan in order. */
  ghost function Execute<T>(plan: seq<Block>, screen: Grid<T>, h: nat, w: nat): (g: Grid<T>)
    requires IsGrid(screen, h, w) && AllInside(plan, h, w)
    ensures IsGrid(g, h, w)
  {
    if plan == [] then screen
    else CopyBlock(plan[|plan| - 1], Execute(plan[..|plan| - 1], screen, h, w), h, w)
  }

  /** The screen after copying every cell from its source at once. */
  ghost function CopyAll<T>(sources: Grid<Source>, screen: Grid<T>, h: nat, w: nat): (g: Grid<T>)
    requires IsGrid(screen, h, w) && SourcesInside(sources, h, w)
    ensures IsGrid(g, h, w)
  {
    seq(h, r requires 0 <= r < h => seq(w, c requires 0 <= c < w =>
      if sources[r][c].From? then screen[sources[r][c].row][sources[r][c].col] else screen[r][c]))
  }

  ghost predicate SourcesInside(sources: Grid<Source>, h: nat, w: nat) {
    && IsGrid(sources, h, w)
    && forall r, c :: 0 <= r < h && 0 <= c < w && sources[r][c].From? ==>
         0 <= sources[r][c].row < h && 0 <= sources[r][c].col < w
  }

  /** Cell (r, c) is covered by one of the first k blocks. */
  ghost predicate Covered(plan: seq<Block>, k: int, r: int, c: int) {
    exists i :: 0 <= i < k && i < |plan| && plan[i].Covers(r, c)
  }

  /** Cell (a, b) comes before cell (r, c) in the scan of the screen. */
  predicate Earlier(a: int, b: int, r: int, c: int) {
    a < r || (a == r && b < c)
  }

  /** Cell (r, c) cannot become part of block b, which comes after the first k of the plan. */
  ghost predicate Blocked(sources: Grid<Source>, plan: seq<Block>, k: int, b: Block, r: int, c: int)
    requires 0 <= r < |sources| && 0 <= c < |sources[r]|
  {
    Covered(plan, k, r, c) || sources[r][c] != b.Expected(r, c)
  }

  /** Some cell of row r keeps block b from extending to that row. */
  ghost predicate BlockedBelow(sources: Grid<Source>, plan: seq<Block>, k: int, b: Block, r: int)
    requires 0 <= r < |sources| && 0 <= b.col && b.col + b.width <= |sources[r]|
  {
    exists c :: b.col <= c < b.col + b.width && Blocked(sources, plan, k, b, r, c)
  }

  /** Block k of a greedy plan starts at the first cell to be copied that no earlier block covers,
      agrees with the sources of all its cells, and extends as far right and then as far down as it
      can. */
  ghost predicate GreedyBlock(sources: Grid<Source>, plan: seq<Block>, k: int, h: nat, w: nat)
    requires SourcesInside(sources, h, w) && 0 <= k < |plan|
  {
    var b := plan[k];
    && b.Inside(h, w)
    && (forall r, c :: b.Covers(r, c) ==> sources[r][c] == b.Expected(r, c) && !Covered(plan, k, r, c))
    && (forall r, c :: 0 <= r < h && 0 <= c < w && sources[r][c].From? && Earlier(r, c, b.row, b.col) ==>
          Covered(plan, k, r, c))
    && (b.col + b.width == w || Blocked(sources, plan, k, b, b.row, b.col + b.width))
    && (b.row + b.height == h || BlockedBelow(sources, plan, k, b, b.row + b.height))
  }

  /** What the scan of __guac_terminal_display_flush_copy yields: greedy blocks covering all cells
      that are to be copied. */
  ghost predicate GreedyPlan(sources: Grid<Source>, plan: seq<Block>, h: nat, w: nat) {
    && SourcesInside(sources, h, w)
    && (forall k :: 0 <= k < |plan| ==> GreedyBlock(sources, plan, k, h, w))
    && (forall r, c :: 0 <= r < h && 0 <= c < w && sources[r][c].From? ==> Covered(plan, |plan|, r, c))
  }

  lemma CoveredExtends(plan: seq<Block>, b: Block, k: nat, r: int, c: int)
    ensures k <= |plan| ==> (Covered(plan + [b], k, r, c) <==> Covered(plan, k, r, c))
    ensures Covered(plan + [b], |plan| + 1, r, c) <==> Covered(plan, |plan|, r, c) || b.Covers(r, c)
  {
    var more := plan + [b];
    if k <= |plan| && Covered(plan, k, r, c) {
      var i :| 0 <= i < k && i < |plan| && plan[i].Covers(r, c);
      assert more[i].Covers(r, c);
    }
    if Covered(plan, |plan|, r, c) {
      var i :| 0 <= i < |plan| && plan[i].Covers(r, c);
      assert more[i].Covers(r, c);
    }
    if b.Covers(r, c) {
      assert more[|plan|].Covers(r, c);
    }
  }

  /** Adding a greedy block at the end of a plan leaves the blocks before it greedy. */
  lemma GreedyExtends(sources: Grid<Source>, plan: seq<Block>, b: Block, h: nat, w: nat)
    requires SourcesInside(sources, h, w) && b.Inside(h, w)
    requires forall k :: 0 <= k < |plan| ==> GreedyBlock(sources, plan, k, h, w)
    requires forall r, c :: b.Covers(r, c) ==> sources[r][c] == b.Expected(r, c) && !Covered(plan, |plan|, r, c)
    requires forall r, c :: 0 <= r < h && 0 <= c < w && sources[r][c].From? && Earlier(r, c, b.row, b.col) ==>
               Covered(plan, |plan|, r, c)
    requires b.col + b.width == w || Blocked(sources, plan, |plan|, b, b.row, b.col + b.width)
    requires b.row + b.height == h
             || BlockedBelow(sources, plan, |plan|, b, b.row + b.height)
    ensures forall k :: 0 <= k < |plan| + 1 ==> GreedyBlock(sources, plan + [b], k, h, w)
  {
    forall k | 0 <= k < |plan| + 1
      ensures GreedyBlock(sources, plan + [b], k, h, w)
    {
      assert k < |plan| ==> GreedyBlock(sources, plan, k, h, w) && (plan + [b])[k] == plan[k];
      forall r, c ensures Covered(plan + [b], k, r, c) <==> Covered(plan, k, r, c) { CoveredExtends(plan, b, k, r, c); }
      SameBlock(sources, plan, plan + [b], k, if k < |plan| then plan[k] else b, h, w);
    }
  }

  /** Whether a block is greedy depends only on what the blocks before it cover. */
  lemma SameBlock(sources: Grid<Source>, plan: seq<Block>, other: seq<Block>, k: int, b: Block, h: nat, w: nat)
    requires SourcesInside(sources, h, w) && 0 <= k < |other| && other[k] == b && b.Inside(h, w)
    requires forall r, c :: Covered(other, k, r, c) <==> Covered(plan, k, r, c)
    requires forall r, c :: b.Covers(r, c) ==> sources[r][c] == b.Expected(r, c) && !Covered(plan, k, r, c)
    requires forall r, c :: 0 <= r < h && 0 <= c < w && sources[r][c].From? && Earlier(r, c, b.row, b.col) ==>
              Covered(plan, k, r, c)
    requires b.col + b.width == w || Blocked(sources, plan, k, b, b.row, b.col + b.width)
    requires b.row + b.height == h
             || BlockedBelow(sources, plan, k, b, b.row + b.height)
    ensures GreedyBlock(sources, other, k, h, w)
  {
    if b.row + b.height < h {
      var r := b.row + b.height;
      var c :| b.col <= c < b.col + b.width && Blocked(sources, plan, k, b, r, c);
      assert Blocked(sources, other, k, b, r, c);
    }
  }

  lemma ExecuteExtends<T>(plan: seq<Block>, b: Block, screen: Grid<T>, h: nat, w: nat)
    requires IsGrid(screen, h, w) && AllInside(plan, h, w) && b.Inside(h, w)
    ensures AllInside(plan + [b], h, w)
    ensures Execute(plan + [b], screen, h, w) == CopyBlock(b, Execute(plan, screen, h, w), h, w)
  {
    assert (plan + [b])[..|plan|] == plan;
  }

  /** Block j reads a cell that an earlier block i has overwritten with another one. */
  ghost predicate Clash(sources: Grid<Source>, plan: seq<Block>, i: int, j: int, r: int, c: int, h: nat, w: nat)
    requires SourcesInside(sources, h, w)
  {
    && 0 <= i < j < |plan| && 0 <= r < h && 0 <= c < w && plan[j].Covers(r, c) && sources[r][c].From?
    && var s := sources[r][c]; plan[i].Covers(s.row, s.col) && sources[s.row][s.col] != s
  }

  /** None of the first k blocks reads an overwritten cell. */
  ghost predicate SafeTo(sources: Grid<Source>, plan: seq<Block>, k: int, h: nat, w: nat)
    requires SourcesInside(sources, h, w)
  {
    forall i, j, r, c :: j < k ==> !Clash(sources, plan, i, j, r, c, h, w)
  }

  /** After k safe blocks every covered cell shows its source, and every other one itself. */
  lemma {:induction false} SafeExecution<T>(sources: Grid<Source>, plan: seq<Block>, screen: Grid<T>, k: nat, r: int,
                                            c: int, h: nat, w: nat)
    requires GreedyPlan(sources, plan, h, w) && IsGrid(screen, h, w) && k <= |plan| && AllInside(plan[..k], h, w)
    requires SafeTo(sources, plan, k, h, w) && 0 <= r < h && 0 <= c < w
    ensures Covered(plan, k, r, c) ==> sources[r][c].From?
    ensures Execute(plan[..k], screen, h, w)[r][c] ==
            if Covered(plan, k, r, c) then screen[sources[r][c].row][sources[r][c].col] else screen[r][c]
  {
    if k > 0 {
      var b := plan[k - 1];
      assert plan[..k][..k - 1] == plan[..k - 1];
      assert GreedyBlock(sources, plan, k - 1, h, w);
      if b.Covers(r, c) {
        var s := sources[r][c];
        SafeExecution(sources, plan, screen, k - 1, s.row, s.col, h, w);
        if Covered(plan, k - 1, s.row, s.col) {
          var i :| 0 <= i < k - 1 && i < |plan| && plan[i].Covers(s.row, s.col);
          assert !Clash(sources, plan, i, k - 1, r, c, h, w);
        }
      } else {
        SafeExecution(sources, plan, screen, k - 1, r, c, h, w);
      }
    }
  }

  lemma GreedyInside(sources: Grid<Source>, plan: seq<Block>, h: nat, w: nat)
    requires GreedyPlan(sources, plan, h, w)
    ensures AllInside(plan, h, w)
  {
    forall k | 0 <= k < |plan| ensures plan[k].Inside(h, w) { assert GreedyBlock(sources, plan, k, h, w); }
  }

  /** A plan without clashes copies every cell as if at once. */
  lemma SafePlanIsExact<T>(sources: Grid<Source>, plan: seq<Block>, screen: Grid<T>, h: nat, w: nat)
    requires GreedyPlan(sources, plan, h, w) && IsGrid(screen, h, w) && SafeTo(sources, plan, |plan|, h, w)
    ensures AllInside(plan, h, w) && Execute(plan, screen, h, w) == CopyAll(sources, screen, h, w)
  {
    GreedyInside(sources, plan, h, w);
    assert plan[..|plan|] == plan;
    var a, b := Execute(plan, screen, h, w), CopyAll(sources, screen, h, w);
    forall r | 0 <= r < h ensures a[r] == b[r] {
      forall c | 0 <= c < w ensures a[r][c] == b[r][c] {
        SafeExecution(sources, plan, screen, |plan|, r, c, h, w);
      }
    }
  }

  /** A cell keeps its content while no block covers it. */
  lemma {:induction false} Untouched<T>(plan: seq<Block>, screen: Grid<T>, k: nat, r: int, c: int, h: nat, w: nat)
    requires IsGrid(screen, h, w) && AllInside(plan, h, w) && k <= |plan| && 0 <= r < h && 0 <= c < w
    requires forall i :: k <= i < |plan| ==> !plan[i].Covers(r, c)
    ensures Execute(plan, screen, h, w)[r][c] == Execute(plan[..k], screen, h, w)[r][c]
  {
    if k == |plan| {
      assert plan[..k] == plan;
    } else {
      var n := |plan| - 1;
      Untouched(plan[..n], screen, k, r, c, h, w);
      assert plan[..n][..k] == plan[..k];
    }
  }

  /** A clash spoils the copy of some screen, whatever two different contents cells can have. */
  lemma ClashSpoils<T>(sources: Grid<Source>, plan: seq<Block>, i: int, j: int, r: int, c: int, h: nat, w: nat, x: T,
                       y: T)
    returns (screen: Grid<T>)
    requires GreedyPlan(sources, plan, h, w) && Clash(sources, plan, i, j, r, c, h, w) && x != y
    requires SafeTo(sources, plan, j, h, w)
    ensures IsGrid(screen, h, w) && AllInside(plan, h, w)
    ensures Execute(plan, screen, h, w)[r][c] != CopyAll(sources, screen, h, w)[r][c]
  {
    GreedyInside(sources, plan, h, w);
    var s := sources[r][c];
    screen := seq(h, a => seq(w, b => if (a, b) == (s.row, s.col) then y else x));
    assert GreedyBlock(sources, plan, j, h, w);
    assert plan[..j + 1][..j] == plan[..j];
    SafeExecution(sources, plan, screen, j, s.row, s.col, h, w);
    assert Covered(plan, j, s.row, s.col);
    forall k | j + 1 <= k < |plan| ensures !plan[k].Covers(r, c) {
      assert GreedyBlock(sources, plan, k, h, w);
      if plan[k].Covers(r, c) { assert Covered(plan, k, r, c); }
    }
    Untouched(plan, screen, j + 1, r, c, h, w);
  }

  lemma {:induction false} FirstClash(sources: Grid<Source>, plan: seq<Block>, k: nat, h: nat, w: nat)
    returns (i: int, j: int, r: int, c: int)
    requires SourcesInside(sources, h, w) && !SafeTo(sources, plan, k, h, w)
    ensures Clash(sources, plan, i, j, r, c, h, w) && SafeTo(sources, plan, j, h, w)
  {
    i, j, r, c :| j < k && Clash(sources, plan, i, j, r, c, h, w);
    if !SafeTo(sources, plan, j, h, w) {
      i, j, r, c := FirstClash(sources, plan, j, h, w);
    }
  }

  // The plan is determined by what is pending.

  /** The first column of row r from c on that block b, after the given plan, cannot take in. */
  ghost function RunTo(sources: Grid<Source>, plan: seq<Block>, h: nat, w: nat, b: Block, r: int, c: int): (right: int)
    requires IsGrid(sources, h, w) && 0 <= r < h && 0 <= c <= w
    ensures c <= right <= w && (right == w || Blocked(sources, plan, |plan|, b, r, right))
    ensures forall k :: c <= k < right ==> !Blocked(sources, plan, |plan|, b, r, k)
    decreases w - c
  {
    if c < w && !Blocked(sources, plan, |plan|, b, r, c) then RunTo(sources, plan, h, w, b, r, c + 1) else c
  }

  /** The first row from r on of which block b cannot take in all columns before `right`. */
  ghost function RowsTo(sources: Grid<Source>, plan: seq<Block>, h: nat, w: nat, b: Block, right: int,
                        r: int): (below: int)
    requires IsGrid(sources, h, w) && 0 <= r <= h && 0 <= b.col < right <= w
    ensures r <= below <= h && (below == h || RunTo(sources, plan, h, w, b, below, b.col) < right)
    ensures forall k :: r <= k < below ==> RunTo(sources, plan, h, w, b, k, b.col) >= right
    decreases h - r
  {
    if r < h && RunTo(sources, plan, h, w, b, r, b.col) >= right
    then RowsTo(sources, plan, h, w, b, right, r + 1)
    else r
  }

  /** The block that starts at cell (r, c), extended to the right first and then downwards. */
  ghost function BlockAt(sources: Grid<Source>, plan: seq<Block>, h: nat, w: nat, r: int, c: int): (b: Block)
    requires IsGrid(sources, h, w) && 0 <= r < h && 0 <= c < w
    requires sources[r][c].From? && !Covered(plan, |plan|, r, c)
  {
    var cell := Block(r, c, 1, 1, sources[r][c].row, sources[r][c].col);
    var right := RunTo(sources, plan, h, w, cell, r, c);
    assert !Blocked(sources, plan, |plan|, cell, r, c);
    Block(r, c, RowsTo(sources, plan, h, w, cell, right, r) - r, right - c, sources[r][c].row, sources[r][c].col)
  }

  /** The plan, once the scan has come to cell (r, c). */
  ghost function PlanFrom(sources: Grid<Source>, plan: seq<Block>, h: nat, w: nat, r: int, c: int): seq<Block>
    requires IsGrid(sources, h, w) && 0 <= r && 0 <= c
    decreases h - r, w - c
  {
    if r >= h then plan
    else if c >= w then PlanFrom(sources, plan, h, w, r + 1, 0)
    else if sources[r][c].From? && !Covered(plan, |plan|, r, c)
    then PlanFrom(sources, plan + [BlockAt(sources, plan, h, w, r, c)], h, w, r, c + 1)
    else PlanFrom(sources, plan, h, w, r, c + 1)
  }

  /** The plan for a screen. */
  ghost function PlanOf(sources: Grid<Source>, h: nat, w: nat): seq<Block>
    requires IsGrid(sources, h, w)
  {
    PlanFrom(sources, [], h, w, 0, 0)
  }

  lemma BlockAtIsGreedy(sources: Grid<Source>, plan: seq<Block>, h: nat, w: nat, r: int, c: int)
    requires SourcesInside(sources, h, w) && 0 <= r < h && 0 <= c < w
    requires sources[r][c].From? && !Covered(plan, |plan|, r, c)
    ensures var b := BlockAt(sources, plan, h, w, r, c);
      && b.Inside(h, w) && b.Covers(r, c)
      && (forall i, k :: b.Covers(i, k) ==> sources[i][k] == b.Expected(i, k) && !Covered(plan, |plan|, i, k))
      && (b.col + b.width == w || Blocked(sources, plan, |plan|, b, b.row, b.col + b.width))
      && (b.row + b.height == h || BlockedBelow(sources, plan, |plan|, b, b.row + b.height))
  {
    var cell, b := Block(r, c, 1, 1, sources[r][c].row, sources[r][c].col), BlockAt(sources, plan, h, w, r, c);
    var right := RunTo(sources, plan, h, w, cell, r, c);
    var below := RowsTo(sources, plan, h, w, cell, right, r);
    assert !Blocked(sources, plan, |plan|, cell, r, c) && RunTo(sources, plan, h, w, cell, r, cell.col) == right;
    assert below > r;
    forall i, k | b.Covers(i, k)
      ensures sources[i][k] == b.Expected(i, k) && !Covered(plan, |plan|, i, k)
    {
      assert RunTo(sources, plan, h, w, cell, i, cell.col) >= right;
      assert !Blocked(sources, plan, |plan|, cell, i, k);
    }
    assert b.Covers(below - 1, right - 1);
    if below < h {
      var k := RunTo(sources, plan, h, w, cell, below, cell.col);
      assert Blocked(sources, plan, |plan|, cell, below, k) && Blocked(sources, plan, |plan|, b, below, k);
    }
    if right < w {
      assert Blocked(sources, plan, |plan|, cell, r, right) && Blocked(sources, plan, |plan|, b, r, right);
    }
  }

  lemma {:induction false} PlanFromIsGreedy(sources: Grid<Source>, plan: seq<Block>, h: nat, w: nat, r: int, c: int)
    requires SourcesInside(sources, h, w) && 0 <= r && 0 <= c
    requires forall k :: 0 <= k < |plan| ==> GreedyBlock(sources, plan, k, h, w)
    requires forall i, k :: 0 <= i < h && 0 <= k < w && sources[i][k].From? && Earlier(i, k, r, c) ==>
              Covered(plan, |plan|, i, k)
    ensures GreedyPlan(sources, PlanFrom(sources, plan, h, w, r, c), h, w)
    decreases h - r, w - c
  {
    if r < h && c >= w {
      PlanFromIsGreedy(sources, plan, h, w, r + 1, 0);
    } else if r < h && sources[r][c].From? && !Covered(plan, |plan|, r, c) {
      var b := BlockAt(sources, plan, h, w, r, c);
      BlockAtIsGreedy(sources, plan, h, w, r, c);
      GreedyExtends(sources, plan, b, h, w);
      forall i, k ensures Covered(plan + [b], |plan| + 1, i, k) <==> Covered(plan, |plan|, i, k) || b.Covers(i, k) {
        CoveredExtends(plan, b, |plan|, i, k);
      }
      PlanFromIsGreedy(sources, plan + [b], h, w, r, c + 1);
    } else if r < h {
      PlanFromIsGreedy(sources, plan, h, w, r, c + 1);
    }
  }

  /** Two greedy plans with the same beginning continue with the same block. */
  lemma SameNextBlock(sources: Grid<Source>, a: seq<Block>, b: seq<Block>, k: int, h: nat, w: nat)
    requires GreedyPlan(sources, a, h, w) && GreedyPlan(sources, b, h, w)
    requires 0 <= k < |a| && k < |b| && a[..k] == b[..k]
    ensures a[k] == b[k]
  {
    forall r, c ensures Covered(a, k, r, c) <==> Covered(b, k, r, c) { SameCovered(a, b, k, r, c); }
    NotAfter(sources, a, b, k, h, w);
    NotAfter(sources, b, a, k, h, w);
    NotNarrower(sources, a, b, k, h, w);
    NotNarrower(sources, b, a, k, h, w);
    NotShorter(sources, a, b, k, h, w);
    NotShorter(sources, b, a, k, h, w);
  }

  lemma SameCovered(a: seq<Block>, b: seq<Block>, k: int, r: int, c: int)
    requires 0 <= k <= |a| && k <= |b| && a[..k] == b[..k]
    ensures Covered(a, k, r, c) <==> Covered(b, k, r, c)
  {
    assert forall i :: 0 <= i < k ==> a[i] == a[..k][i] == b[..k][i] == b[i];
  }

  /** What block k of a greedy plan covers could not be taken in earlier, and is as expected. */
  lemma Reaches(sources: Grid<Source>, plan: seq<Block>, k: int, r: int, c: int, h: nat, w: nat)
    requires GreedyPlan(sources, plan, h, w) && 0 <= k < |plan| && plan[k].Covers(r, c)
    ensures 0 <= r < h && 0 <= c < w && sources[r][c] == plan[k].Expected(r, c) && !Covered(plan, k, r, c)
  {
    assert GreedyBlock(sources, plan, k, h, w);
  }

  /** Where block k of a greedy plan starts, and what limits it. */
  lemma Limits(sources: Grid<Source>, plan: seq<Block>, k: int, h: nat, w: nat)
    requires GreedyPlan(sources, plan, h, w) && 0 <= k < |plan|
    ensures var b := plan[k];
      && b.Inside(h, w) && sources[b.row][b.col] == From(b.srcRow, b.srcCol) && !Covered(plan, k, b.row, b.col)
      && (b.col + b.width == w || Blocked(sources, plan, k, b, b.row, b.col + b.width))
      && (b.row + b.height == h || BlockedBelow(sources, plan, k, b, b.row + b.height))
  {
    assert GreedyBlock(sources, plan, k, h, w);
    assert plan[k].Covers(plan[k].row, plan[k].col);
  }

  lemma NotAfter(sources: Grid<Source>, a: seq<Block>, b: seq<Block>, k: int, h: nat, w: nat)
    requires GreedyPlan(sources, a, h, w) && GreedyPlan(sources, b, h, w) && 0 <= k < |a| && k < |b|
    requires forall r, c :: Covered(a, k, r, c) <==> Covered(b, k, r, c)
    ensures !Earlier(b[k].row, b[k].col, a[k].row, a[k].col)
  {
    Limits(sources, b, k, h, w);
    assert GreedyBlock(sources, a, k, h, w);
  }

  lemma NotNarrower(sources: Grid<Source>, a: seq<Block>, b: seq<Block>, k: int, h: nat, w: nat)
    requires GreedyPlan(sources, a, h, w) && GreedyPlan(sources, b, h, w) && 0 <= k < |a| && k < |b|
    requires a[k].row == b[k].row && a[k].col == b[k].col
    requires forall r, c :: Covered(a, k, r, c) <==> Covered(b, k, r, c)
    ensures a[k].srcRow == b[k].srcRow && a[k].srcCol == b[k].srcCol && a[k].width >= b[k].width
  {
    Limits(sources, a, k, h, w);
    Limits(sources, b, k, h, w);
    if a[k].width < b[k].width {
      Reaches(sources, b, k, a[k].row, a[k].col + a[k].width, h, w);
    }
  }

  lemma NotShorter(sources: Grid<Source>, a: seq<Block>, b: seq<Block>, k: int, h: nat, w: nat)
    requires GreedyPlan(sources, a, h, w) && GreedyPlan(sources, b, h, w) && 0 <= k < |a| && k < |b|
    requires a[k].row == b[k].row && a[k].col == b[k].col && a[k].width == b[k].width
    requires a[k].srcRow == b[k].srcRow && a[k].srcCol == b[k].srcCol
    requires forall r, c :: Covered(a, k, r, c) <==> Covered(b, k, r, c)
    ensures a[k].height >= b[k].height
  {
    Limits(sources, a, k, h, w);
    Limits(sources, b, k, h, w);
    var r := a[k].row + a[k].height;
    if r < b[k].row + b[k].height {
      var c :| a[k].col <= c < a[k].col + a[k].width && Blocked(sources, a, k, a[k], r, c);
      Reaches(sources, b, k, r, c, h, w);
    }
  }

  lemma {:induction false} SamePrefix(sources: Grid<Source>, a: seq<Block>, b: seq<Block>, k: nat, h: nat, w: nat)
    requires GreedyPlan(sources, a, h, w) && GreedyPlan(sources, b, h, w) && k <= |a| && k <= |b|
    ensures a[..k] == b[..k]
  {
    if k > 0 {
      SamePrefix(sources, a, b, k - 1, h, w);
      SameNextBlock(sources, a, b, k - 1, h, w);
      assert a[..k] == a[..k - 1] + [a[k - 1]] && b[..k] == b[..k - 1] + [b[k - 1]];
    }
  }

  /** A plan cannot go on once another one has covered everything. */
  lemma NoLonger(sources: Grid<Source>, a: seq<Block>, b: seq<Block>, h: nat, w: nat)
    requires GreedyPlan(sources, a, h, w) && GreedyPlan(sources, b, h, w) && |a| <= |b| && b[..|a|] == a
    ensures |a| == |b|
  {
    var k := |a|;
    assert a[..k] == a;
    forall r, c ensures Covered(a, k, r, c) <==> Covered(b, k, r, c) { SameCovered(a, b, k, r, c); }
    if k < |b| {
      Limits(sources, b, k, h, w);
    }
  }

  /** There is one greedy plan, and PlanOf is it. */
  lemma PlanIsDetermined(sources: Grid<Source>, plan: seq<Block>, h: nat, w: nat)
    requires SourcesInside(sources, h, w)
    ensures GreedyPlan(sources, plan, h, w) <==> plan == PlanOf(sources, h, w)
  {
    var it := PlanOf(sources, h, w);
    PlanFromIsGreedy(sources, [], h, w, 0, 0);
    if GreedyPlan(sources, plan, h, w) {
      var k := if |plan| < |it| then |plan| else |it|;
      SamePrefix(sources, plan, it, k, h, w);
      assert plan[..|plan|] == plan && it[..|it|] == it;
      if |plan| <= |it| {
        NoLonger(sources, plan, it, h, w);
      } else {
        NoLonger(sources, it, plan, h, w);
      }
    }
  }

  /** No block of the plan reads a cell that an earlier one has overwritten. */
  ghost predicate Safe(sources: Grid<Source>, h: nat, w: nat)
    requires SourcesInside(sources, h, w)
  {
    SafeTo(sources, PlanOf(sources, h, w), |PlanOf(sources, h, w)|, h, w)
  }

  /** Carrying out the plan copies all cells as if at once, whatever the screen shows, if and only if
      the plan is safe. */
  lemma ExactIffSafe<T(!new)>(sources: Grid<Source>, h: nat, w: nat, x: T, y: T)
    requires SourcesInside(sources, h, w) && x != y
    ensures AllInside(PlanOf(sources, h, w), h, w)
    ensures Safe(sources, h, w) <==>
            forall screen: Grid<T> :: IsGrid(screen, h, w) ==>
              Execute(PlanOf(sources, h, w), screen, h, w) == CopyAll(sources, screen, h, w)
  {
    var plan := PlanOf(sources, h, w);
    PlanIsDetermined(sources, plan, h, w);
    GreedyInside(sources, plan, h, w);
    if Safe(sources, h, w) {
      forall screen: Grid<T> | IsGrid(screen, h, w)
        ensures Execute(plan, screen, h, w) == CopyAll(sources, screen, h, w)
      {
        SafePlanIsExact(sources, plan, screen, h, w);
      }
    } else {
      var i, j, r, c := FirstClash(sources, plan, |plan|, h, w);
      var screen := ClashSpoils(sources, plan, i, j, r, c, h, w, x, y);
    }
  }

  /** Every cell that is to be copied comes from below in its own column, as when rows scroll up. */
  ghost predicate Upward(sources: Grid<Source>, h: nat, w: nat)
    requires SourcesInside(sources, h, w)
  {
    forall r, c :: 0 <= r < h && 0 <= c < w && sources[r][c].From? ==>
      sources[r][c].col == c && sources[r][c].row >= r
  }

  /** Upward copies never clash: an earlier block that covers the source of a cell starts no lower
      than the cell's own block, and so covers the cell as well. */
  lemma UpwardIsSafe(sources: Grid<Source>, plan: seq<Block>, h: nat, w: nat)
    requires GreedyPlan(sources, plan, h, w) && Upward(sources, h, w)
    ensures SafeTo(sources, plan, |plan|, h, w)
  {
    forall i, j, r, c | j < |plan|
      ensures !Clash(sources, plan, i, j, r, c, h, w)
    {
      if Clash(sources, plan, i, j, r, c, h, w) {
        assert GreedyBlock(sources, plan, i, h, w);
        assert GreedyBlock(sources, plan, j, h, w);
        StartsNoLower(sources, plan, i, j, h, w);
        assert plan[i].Covers(r, c);
      }
    }
  }

  lemma StartsNoLower(sources: Grid<Source>, plan: seq<Block>, i: int, j: int, h: nat, w: nat)
    requires GreedyPlan(sources, plan, h, w) && 0 <= i < j < |plan|
    ensures plan[i].row <= plan[j].row
  {
    assert GreedyBlock(sources, plan, i, h, w);
    assert GreedyBlock(sources, plan, j, h, w);
    var b := plan[j];
    assert b.Covers(b.row, b.col);
  }

  /** What is pending after three rows of two cells have been scrolled down by one, and a character
      has then been written to the second column of the last row. */
  predicate ScrolledAndWritten(sources: Grid<Source>) {
    && |sources| == 3 && |sources[0]| == 2 && |sources[1]| == 2 && |sources[2]| == 2
    && sources[0][0] == Keep && sources[0][1] == Keep
    && sources[1][0] == From(0, 0) && sources[1][1] == From(0, 1)
    && sources[2][0] == From(1, 0) && sources[2][1] == Keep
  }

  lemma ScrolledInside(sources: Grid<Source>)
    requires ScrolledAndWritten(sources)
    ensures SourcesInside(sources, 3, 2)
  {
  }

  lemma MiddleMatches(sources: Grid<Source>, b: Block)
    requires ScrolledAndWritten(sources) && b == Block(1, 0, 1, 2, 0, 0)
    ensures forall r, c :: b.Covers(r, c) ==> sources[r][c] == b.Expected(r, c)
  {
    forall r, c | b.Covers(r, c)
      ensures sources[r][c] == b.Expected(r, c)
    {
      assert r == 1 && (c == 0 || c == 1);
    }
  }

  lemma LastMatches(sources: Grid<Source>, b: Block)
    requires ScrolledAndWritten(sources) && b == Block(2, 0, 1, 1, 1, 0)
    ensures forall r, c :: b.Covers(r, c) ==> sources[r][c] == b.Expected(r, c)
  {
    forall r, c | b.Covers(r, c)
      ensures sources[r][c] == b.Expected(r, c)
    {
      assert r == 2 && c == 0;
    }
  }

  /** Only these three cells are to be copied. */
  lemma ScrolledCells(sources: Grid<Source>, r: int, c: int)
    requires ScrolledAndWritten(sources) && 0 <= r < 3 && 0 <= c < 2 && sources[r][c].From?
    ensures r == 1 || (r == 2 && c == 0)
  {
  }

  lemma MiddleFirst(sources: Grid<Source>, plan: seq<Block>, b: Block)
    requires ScrolledAndWritten(sources) && SourcesInside(sources, 3, 2)
    requires plan != [] && plan[0] == b == Block(1, 0, 1, 2, 0, 0)
    ensures GreedyBlock(sources, plan, 0, 3, 2)
  {
    MiddleMatches(sources, b);
    forall r, c | 0 <= r < 3 && 0 <= c < 2 && sources[r][c].From?
      ensures !Earlier(r, c, 1, 0)
    {
      ScrolledCells(sources, r, c);
    }
    assert BlockedBelow(sources, plan, 0, b, 2) by {
      assert Blocked(sources, plan, 0, b, 2, 1);
    }
    SameBlock(sources, plan, plan, 0, b, 3, 2);
  }

  lemma LastSecond(sources: Grid<Source>, plan: seq<Block>, middle: Block, b: Block)
    requires ScrolledAndWritten(sources) && SourcesInside(sources, 3, 2)
    requires |plan| > 1 && middle == Block(1, 0, 1, 2, 0, 0) && plan[1] == b == Block(2, 0, 1, 1, 1, 0)
    requires forall r, c :: Covered(plan, 1, r, c) <==> middle.Covers(r, c)
    ensures GreedyBlock(sources, plan, 1, 3, 2)
  {
    LastMatches(sources, b);
    forall r, c | 0 <= r < 3 && 0 <= c < 2 && sources[r][c].From? && Earlier(r, c, 2, 0)
      ensures Covered(plan, 1, r, c)
    {
      ScrolledCells(sources, r, c);
    }
    assert Blocked(sources, plan, 1, b, 2, 1);
    SameBlock(sources, plan, plan, 1, b, 3, 2);
  }

  /** The plan for that: both cells of the middle row first, then the one that is left of the last. */
  lemma MiddleThenLast(sources: Grid<Source>, middle: Block, last: Block)
    requires ScrolledAndWritten(sources) && SourcesInside(sources, 3, 2)
    requires middle == Block(1, 0, 1, 2, 0, 0) && last == Block(2, 0, 1, 1, 1, 0)
    ensures PlanOf(sources, 3, 2) == [middle, last]
  {
    var plan := [middle, last];
    forall r, c
      ensures Covered(plan, 1, r, c) <==> middle.Covers(r, c)
      ensures Covered(plan, 2, r, c) <==> middle.Covers(r, c) || last.Covers(r, c)
    {
      TwoBlocks(plan, middle, last, r, c);
    }
    MiddleFirst(sources, plan, middle);
    LastSecond(sources, plan, middle, last);
    AllCovered(sources, plan, middle, last);
    PlanIsDetermined(sources, plan, 3, 2);
  }

  lemma AllCovered(sources: Grid<Source>, plan: seq<Block>, middle: Block, last: Block)
    requires ScrolledAndWritten(sources) && SourcesInside(sources, 3, 2) && |plan| == 2
    requires GreedyBlock(sources, plan, 0, 3, 2) && GreedyBlock(sources, plan, 1, 3, 2)
    requires middle == Block(1, 0, 1, 2, 0, 0) && last == Block(2, 0, 1, 1, 1, 0)
    requires forall r, c :: Covered(plan, 2, r, c) <==> middle.Covers(r, c) || last.Covers(r, c)
    ensures GreedyPlan(sources, plan, 3, 2)
  {
    forall r, c | 0 <= r < 3 && 0 <= c < 2 && sources[r][c].From?
      ensures Covered(plan, 2, r, c)
    {
      ScrolledCells(sources, r, c);
    }
  }

  lemma TwoBlocks(plan: seq<Block>, first: Block, second: Block, r: int, c: int)
    requires plan == [first, second]
    ensures !Covered(plan, 0, r, c) && (Covered(plan, 1, r, c) <==> first.Covers(r, c))
    ensures Covered(plan, 2, r, c) <==> first.Covers(r, c) || second.Covers(r, c)
  {
    assert first.Covers(r, c) ==> plan[0].Covers(r, c);
    assert second.Covers(r, c) ==> plan[1].Covers(r, c);
  }

  lemma ExecuteTwo<T>(first: Block, second: Block, screen: Grid<T>, h: nat, w: nat)
    requires IsGrid(screen, h, w) && first.Inside(h, w) && second.Inside(h, w)
    ensures AllInside([first, second], h, w)
    ensures Execute([first, second], screen, h, w) == CopyBlock(second, CopyBlock(first, screen, h, w), h, w)
  {
    ExecuteExtends([], first, screen, h, w);
    ExecuteExtends([first], second, screen, h, w);
    assert [] + [first] == [first] && [first] + [second] == [first, second];
  }

  lemma CopiedTo<T>(b: Block, screen: Grid<T>, h: nat, w: nat, r: int, c: int, sr: int, sc: int)
    requires IsGrid(screen, h, w) && b.Inside(h, w) && b.Covers(r, c)
    requires sr == b.srcRow + (r - b.row) && sc == b.srcCol + (c - b.col)
    ensures CopyBlock(b, screen, h, w)[r][c] == screen[sr][sc]
  {
  }

  lemma LastClashes(sources: Grid<Source>, plan: seq<Block>, middle: Block, last: Block)
    requires ScrolledAndWritten(sources) && SourcesInside(sources, 3, 2) && plan == [middle, last]
    requires middle == Block(1, 0, 1, 2, 0, 0) && last == Block(2, 0, 1, 1, 1, 0)
    ensures !SafeTo(sources, plan, 2, 3, 2)
  {
    assert plan[0].Covers(1, 0) && plan[1].Covers(2, 0);
    assert Clash(sources, plan, 0, 1, 2, 0, 3, 2);
  }

  /** The plan for it is not safe: the last row gets what the middle row has just been given, which is
      from the first row. */
  lemma ScrollDownThenWriteClashes<T>(sources: Grid<Source>, screen: Grid<T>)
    requires ScrolledAndWritten(sources) && IsGrid(screen, 3, 2)
    ensures SourcesInside(sources, 3, 2) && !Safe(sources, 3, 2) && AllInside(PlanOf(sources, 3, 2), 3, 2)
    ensures Execute(PlanOf(sources, 3, 2), screen, 3, 2)[2][0] == screen[0][0]
    ensures CopyAll(sources, screen, 3, 2)[2][0] == screen[1][0]
  {
    var middle, last := Block(1, 0, 1, 2, 0, 0), Block(2, 0, 1, 1, 1, 0);
    ScrolledInside(sources);
    MiddleThenLast(sources, middle, last);
    LastClashes(sources, [middle, last], middle, last);
    ExecuteTwo(middle, last, screen, 3, 2);
    CopiedTo(last, CopyBlock(middle, screen, 3, 2), 3, 2, 2, 0, 1, 0);
    CopiedTo(middle, screen, 3, 2, 1, 0, 0, 0);
  }
}
