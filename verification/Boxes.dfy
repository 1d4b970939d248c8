/** The min_x/min_y/max_x/max_y bookkeeping shared by the pixel loops of
    src/common/surface.c, and the rectangle it yields. */
module Boxes {
  import opened Grids
  import opened Pixels
  import opened Rects

  datatype Box = Box(minX: int, minY: int, maxX: int, maxY: int)

  function Grow(b: Box, x: int, y: int): Box {
    Box(Min(b.minX, x), Min(b.minY, y), Max(b.maxX, x), Max(b.maxY, y))
  }

  /** Restricts `rect` to the box, or to nothing when the box is inverted. */
  function Shrink(rect: Rect, b: Box): Rect {
    if b.maxX >= b.minX && b.maxY >= b.minY then
      Rect(rect.x + b.minX, rect.y + b.minY, b.maxX - b.minX + 1, b.maxY - b.minY + 1)
    else
      Rect(rect.x, rect.y, 0, 0)
  }

  /** Translates a box measured from the last pixel of `rect` to one measured from the first. */
  function Mirror(b: Box, rect: Rect): Box {
    Box(rect.width - 1 - b.maxX, rect.height - 1 - b.maxY, rect.width - 1 - b.minX, rect.height - 1 - b.minY)
  }

  ghost predicate Differ(a: Grid<Pixel>, b: Grid<Pixel>, p: Point) {
    && 0 <= p.y < |a| && 0 <= p.y < |b| && 0 <= p.x < |a[p.y]| && 0 <= p.x < |b[p.y]|
    && a[p.y][p.x] != b[p.y][p.x]
  }

  /** `r` is the bounding box of the differences between two images: it has all of them, and one
      on each of its edges. */
  ghost predicate Tight(r: Rect, a: Grid<Pixel>, b: Grid<Pixel>) {
    && (forall p :: Differ(a, b, p) ==> r.Has(p.x, p.y))
    && (a != b ==>
          && (exists p :: Differ(a, b, p) && p.x == r.x) && (exists p :: Differ(a, b, p) && p.x == r.x + r.width - 1)
          && (exists p :: Differ(a, b, p) && p.y == r.y) && (exists p :: Differ(a, b, p) && p.y == r.y + r.height - 1))
  }

  /** The rectangle that change detection leaves of `rect`: the bounding box of the differences, or nothing. A single
      pixel is left whether or not it differs. */
  ghost predicate IsLeft(r: Rect, a: Grid<Pixel>, b: Grid<Pixel>, rect: Rect) {
    && Tight(r, a, b) && r.Inside(rect)
    && if rect.width == rect.height == 1 then r == rect else r.Empty() || exists p :: Differ(a, b, p)
  }

  /** ... which has the same pixels however it is found. */
  lemma LeftOnce(r: Rect, other: Rect, a: Grid<Pixel>, b: Grid<Pixel>, rect: Rect)
    requires IsLeft(r, a, b, rect) && IsLeft(other, a, b, rect)
    ensures forall x, y :: r.Has(x, y) <==> other.Has(x, y)
  {
  }

  /** The pixel visited in column x of row y of a traversal of `rect`, which runs backwards from
      the last pixel or forwards from the first. */
  function Here(rect: Rect, back: bool, y: int, x: int): Point {
    if back then Point(rect.x + rect.width - 1 - x, rect.y + rect.height - 1 - y)
    else Point(rect.x + x, rect.y + y)
  }

  /** The traversal has passed pixel p when it is about to visit column x of row y. */
  predicate Passed(rect: Rect, back: bool, y: int, x: int, p: Point) {
    && rect.Has(p.x, p.y)
    && var here := Here(rect, back, y, x);
       if back then p.y > here.y || (p.y == here.y && p.x > here.x)
       else p.y < here.y || (p.y == here.y && p.x < here.x)
  }

  lemma PassOne(rect: Rect, back: bool, y: int, x: int, p: Point)
    requires 0 <= x < rect.width && 0 <= y < rect.height
    ensures Passed(rect, back, y, x + 1, p) <==> Passed(rect, back, y, x, p) || p == Here(rect, back, y, x)
    ensures !Passed(rect, back, y, x, Here(rect, back, y, x))
    ensures rect.Has(Here(rect, back, y, x).x, Here(rect, back, y, x).y)
  {
  }

  lemma PassRow(rect: Rect, back: bool, y: int, p: Point)
    requires 0 <= y < rect.height
    ensures Passed(rect, back, y + 1, 0, p) <==> Passed(rect, back, y, rect.width, p)
  {
  }

  /** Column p.x of row p.y comes before column x of row y. */
  ghost predicate Before(rect: Rect, p: Point, y: int, x: int) {
    0 <= p.x < rect.width && 0 <= p.y && (p.y < y || (p.y == y && p.x < x))
  }

  /** The traversal coordinates, in order, of the differences between two images that have been
      passed when the traversal is about to visit column x of row y. */
  ghost function Trail(a: Grid<Pixel>, b: Grid<Pixel>, rect: Rect, back: bool, y: nat, x: nat): seq<Point>
    requires rect.width > 0
    decreases y, x
  {
    if x > 0 then
      var before := Trail(a, b, rect, back, y, x - 1);
      if Differ(a, b, Here(rect, back, y, x - 1)) then before + [Point(x - 1, y)] else before
    else if y > 0 then Trail(a, b, rect, back, y - 1, rect.width)
    else []
  }

  lemma {:induction false} TrailHits(a: Grid<Pixel>, b: Grid<Pixel>, rect: Rect, back: bool, y: nat, x: nat, p: Point)
    requires 0 < rect.width && x <= rect.width
    ensures p in Trail(a, b, rect, back, y, x) <==>
            Before(rect, p, y, x) && Differ(a, b, Here(rect, back, p.y, p.x))
    decreases y, x
  {
    if x > 0 {
      TrailHits(a, b, rect, back, y, x - 1, p);
    } else if y > 0 {
      TrailHits(a, b, rect, back, y - 1, rect.width, p);
    }
  }

  ghost function GrowAll(start: Box, ps: seq<Point>): Box {
    if ps == [] then start
    else var n := |ps| - 1; Grow(GrowAll(start, ps[..n]), ps[n].x, ps[n].y)
  }

  lemma {:induction false} GrowAllEncloses(start: Box, ps: seq<Point>, p: Point)
    requires p in ps
    ensures var box := GrowAll(start, ps); box.minX <= p.x <= box.maxX && box.minY <= p.y <= box.maxY
  {
    var n := |ps| - 1;
    if p != ps[n] {
      assert p in ps[..n];
      GrowAllEncloses(start, ps[..n], p);
    }
  }

  /** A box that starts inverted at the last row and column is touched by a point on each side. */
  lemma {:induction false} GrowAllTouches(start: Box, ps: seq<Point>)
    returns (left: Point, top: Point, right: Point, bottom: Point)
    requires ps != []
    requires forall p :: p in ps ==> 0 <= p.x <= start.minX && 0 <= p.y <= start.minY
    requires start.maxX == 0 && start.maxY == 0
    ensures left in ps && top in ps && right in ps && bottom in ps
    ensures GrowAll(start, ps) == Box(left.x, top.y, right.x, bottom.y)
  {
    var n := |ps| - 1;
    var before, p := ps[..n], ps[n];
    left, top, right, bottom := p, p, p, p;
    if before != [] {
      var l, t, r, b := GrowAllTouches(start, before);
      if l.x <= p.x { left := l; }
      if t.y <= p.y { top := t; }
      if r.x >= p.x { right := r; }
      if b.y >= p.y { bottom := b; }
    }
  }

  /** The rectangle left after a full traversal is tight around the changed pixels.  It is empty
      when there are none, except that loops which start their box at the last row and column
      leave a rectangle of a single pixel even then. */
  lemma ShrinkTight(a: Grid<Pixel>, b: Grid<Pixel>, h: nat, w: nat, rect: Rect, back: bool, start: Box)
    requires rect.width > 0 && rect.height > 0 && IsGrid(a, h, w) && IsGrid(b, h, w)
    requires forall p :: Differ(a, b, p) ==> rect.Has(p.x, p.y)
    requires || start == Box(rect.width - 1, rect.height - 1, 0, 0)
             || (!back && start == Box(rect.width, rect.height, 0, 0))
    ensures var box := GrowAll(start, Trail(a, b, rect, back, rect.height, 0));
            var r := Shrink(rect, if back then Mirror(box, rect) else box);
            && Tight(r, a, b) && r.Inside(rect) && (start.minX == rect.width && a == b ==> r.Empty())
            && (start.minX < rect.width ==> IsLeft(r, a, b, rect))
  {
    var ps := Trail(a, b, rect, back, rect.height, 0);
    if ps == [] {
      forall p | Differ(a, b, p) ensures false { InTrail(a, b, rect, back, start, p); }
      SameGrid(a, b, h, w);
    } else {
      ShrinkTouched(a, b, rect, back, start);
      forall p | Differ(a, b, p)
        ensures Shrink(rect, if back then Mirror(GrowAll(start, ps), rect) else GrowAll(start, ps)).Has(p.x, p.y)
      {
        InTrail(a, b, rect, back, start, p);
      }
    }
  }

  /** The rectangle that a box inside of `rect` stands for. */
  lemma Shrunk(rect: Rect, b: Box, back: bool)
    requires 0 <= b.minX <= b.maxX < rect.width && 0 <= b.minY <= b.maxY < rect.height
    ensures var r := Shrink(rect, if back then Mirror(b, rect) else b);
      && !r.Empty() && r.Inside(rect) && r.width == b.maxX - b.minX + 1 && r.height == b.maxY - b.minY + 1
      && r.x == rect.x + (if back then rect.width - 1 - b.maxX else b.minX)
      && r.y == rect.y + (if back then rect.height - 1 - b.maxY else b.minY)
  {
  }

  /** A nonempty trail leaves an upright box inside the rectangle, touched on all four sides. */
  lemma ShrinkTouched(a: Grid<Pixel>, b: Grid<Pixel>, rect: Rect, back: bool, start: Box)
    requires rect.width > 0 && rect.height > 0 && Trail(a, b, rect, back, rect.height, 0) != []
    requires start == Box(rect.width - 1, rect.height - 1, 0, 0) || start == Box(rect.width, rect.height, 0, 0)
    ensures var box := GrowAll(start, Trail(a, b, rect, back, rect.height, 0));
            var r := Shrink(rect, if back then Mirror(box, rect) else box);
            && !r.Empty() && r.Inside(rect)
            && (exists p :: Differ(a, b, p) && p.x == r.x) && (exists p :: Differ(a, b, p) && p.x == r.x + r.width - 1)
            && (exists p :: Differ(a, b, p) && p.y == r.y) && (exists p :: Differ(a, b, p) && p.y == r.y + r.height - 1)
  {
    var ps := Trail(a, b, rect, back, rect.height, 0);
    forall p | p in ps
      ensures 0 <= p.x < rect.width && 0 <= p.y < rect.height && Differ(a, b, Here(rect, back, p.y, p.x))
    {
      TrailHits(a, b, rect, back, rect.height, 0, p);
    }
    var l, t, r, u := GrowAllTouches(start, ps);
    GrowAllEncloses(start, ps, l);
    GrowAllEncloses(start, ps, t);
    var left, right := Here(rect, back, l.y, l.x), Here(rect, back, r.y, r.x);
    var top, bottom := Here(rect, back, t.y, t.x), Here(rect, back, u.y, u.x);
    assert Differ(a, b, left) && Differ(a, b, right) && Differ(a, b, top) && Differ(a, b, bottom);
    var box :| box == GrowAll(start, ps);
    Shrunk(rect, box, back);
  }

  lemma InTrail(a: Grid<Pixel>, b: Grid<Pixel>, rect: Rect, back: bool, start: Box, p: Point)
    requires rect.Has(p.x, p.y)
    ensures var q := if back then Point(rect.x + rect.width - 1 - p.x, rect.y + rect.height - 1 - p.y)
                     else Point(p.x - rect.x, p.y - rect.y);
            var ps := Trail(a, b, rect, back, rect.height, 0);
            var box := GrowAll(start, ps);
            Differ(a, b, p) ==> q in ps && box.minX <= q.x <= box.maxX && box.minY <= q.y <= box.maxY
  {
    var q := if back then Point(rect.x + rect.width - 1 - p.x, rect.y + rect.height - 1 - p.y)
             else Point(p.x - rect.x, p.y - rect.y);
    assert Here(rect, back, q.y, q.x) == p;
    TrailHits(a, b, rect, back, rect.height, 0, q);
    if Differ(a, b, p) {
      GrowAllEncloses(start, Trail(a, b, rect, back, rect.height, 0), q);
    }
  }

  lemma InkedWithin(was: Grid<Pixel>, want: Grid<Pixel>, h: nat, w: nat, from: Grid<Pixel>, sx: int, sy: int,
                    rect: Rect, ink: Ink)
    requires Inked(was, want, h, w, from, sx, sy, rect, ink)
    ensures forall p :: Differ(was, want, p) ==> rect.Has(p.x, p.y)
  {
  }

  /** Inking has one result. */
  lemma InkedOnce(was: Grid<Pixel>, a: Grid<Pixel>, b: Grid<Pixel>, h: nat, w: nat, from: Grid<Pixel>, sx: int,
                  sy: int, rect: Rect, ink: Ink)
    requires Inked(was, a, h, w, from, sx, sy, rect, ink) && Inked(was, b, h, w, from, sx, sy, rect, ink)
    ensures a == b
  {
    SameGrid(a, b, h, w);
  }

  lemma SameGrid(a: Grid<Pixel>, b: Grid<Pixel>, h: nat, w: nat)
    requires IsGrid(a, h, w) && IsGrid(b, h, w)
    requires forall p :: !Differ(a, b, p)
    ensures a == b
  {
    forall y | 0 <= y < h ensures a[y] == b[y] {
      forall x | 0 <= x < w ensures a[y][x] == b[y][x] { assert !Differ(a, b, Point(x, y)); }
    }
  }
}
