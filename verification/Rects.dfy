/** Rectangle arithmetic of src/common/rect.c.  A rectangle stands for the set of pixels
    it covers, and every operation is specified by what it does to that set. */
module Rects {

  datatype Rect = Rect(x: int, y: int, width: int, height: int) {
    /** The pixel (px, py) lies in this rectangle. */
    predicate Has(px: int, py: int) {
      x <= px < x + width && y <= py < y + height
    }

    /** The point (px, py) lies in this rectangle or on its border. */
    predicate Touches(px: int, py: int) {
      x <= px <= x + width && y <= py <= y + height
    }

    predicate Empty() {
      width <= 0 || height <= 0
    }

    /** Every edge of this rectangle is within the edges of `outer`. */
    predicate Inside(outer: Rect) {
      && outer.x <= x && x + width <= outer.x + outer.width
      && outer.y <= y && y + height <= outer.y + outer.height
    }
  }

  function Min(a: int, b: int): int {
    if a < b then a else b
  }

  function Max(a: int, b: int): int {
    if a > b then a else b
  }

  /** guac_common_rect_extend */
  function Extend(rect: Rect, min: Rect): Rect {
    var left := Min(rect.x, min.x);
    var top := Min(rect.y, min.y);
    var right := Max(rect.x + rect.width, min.x + min.width);
    var bottom := Max(rect.y + rect.height, min.y + min.height);
    Rect(left, top, right - left, bottom - top)
  }

  /** Extending yields the least rectangle having both arguments inside. */
  lemma ExtendLeast(rect: Rect, min: Rect, outer: Rect)
    ensures rect.Inside(Extend(rect, min)) && min.Inside(Extend(rect, min))
    ensures rect.Inside(outer) && min.Inside(outer) <==> Extend(rect, min).Inside(outer)
  {
  }

  /** guac_common_rect_constrain */
  function Constrain(rect: Rect, max: Rect): Rect {
    var left := Max(rect.x, max.x);
    var top := Max(rect.y, max.y);
    var right := Min(rect.x + rect.width, max.x + max.width);
    var bottom := Min(rect.y + rect.height, max.y + max.height);
    Rect(left, top, right - left, bottom - top)
  }

  /** Constraining keeps exactly the pixels of both arguments. */
  lemma ConstrainExact(rect: Rect, max: Rect, px: int, py: int)
    ensures Constrain(rect, max).Has(px, py) <==> rect.Has(px, py) && max.Has(px, py)
  {
  }

  /** guac_common_rect_expand_to_grid.  C's remainder agrees with Dafny's here because
      widths are not negative. */
  method ExpandToGrid(cellSize: int, rect: Rect, max: Rect) returns (status: int, r: Rect)
    requires rect.width >= 0 && rect.height >= 0
    ensures cellSize <= 0 <==> status != 0
    ensures cellSize <= 1 ==> r == rect
    ensures cellSize > 1 && rect.Inside(max) ==>
              && rect.Inside(r) && r.Inside(max)
              && (r.width % cellSize == 0 || (r.x == max.x && r.width == max.width))
              && (r.height % cellSize == 0 || (r.y == max.y && r.height == max.height))
              && r.width <= rect.width + cellSize && r.height <= rect.height + cellSize
  {
    if cellSize <= 0 {
      return -1, rect;
    }
    if cellSize == 1 {
      return 0, rect;
    }

    var dw := cellSize - rect.width % cellSize;
    var dh := cellSize - rect.height % cellSize;
    RoundUp(rect.width, cellSize);
    RoundUp(rect.height, cellSize);
    var dx := dw / 2;
    var dy := dh / 2;

    var top := rect.y - dy;
    var left := rect.x - dx;
    var bottom := top + rect.height + dh;
    var right := left + rect.width + dw;

    var maxRight := max.x + max.width;
    var maxBottom := max.y + max.height;

    if right > maxRight {
      dw := right - maxRight;
      right := right - dw;
      left := left - dw;
      if left < max.x {
        left := max.x;
      }
    } else if left < max.x {
      dw := max.x - left;
      left := left + dw;
      right := right + dw;
      if right > maxRight {
        right := maxRight;
      }
    }

    if bottom > maxBottom {
      dh := bottom - maxBottom;
      bottom := bottom - dh;
      top := top - dh;
      if top < max.y {
        top := max.y;
      }
    } else if top < max.y {
      dh := max.y - top;
      top := top + dh;
      bottom := bottom + dh;
      if bottom > maxBottom {
        bottom := maxBottom;
      }
    }

    r := Rect(left, top, right - left, bottom - top);
    status := 0;
  }

  lemma RoundUp(n: nat, cell: int)
    requires cell > 1
    ensures (n + (cell - n % cell)) % cell == 0
    ensures 0 < cell - n % cell <= cell
  {
    var q := n / cell;
    assert n + (cell - n % cell) == cell * (q + 1);
    MultipleOf(n + (cell - n % cell), q + 1, cell);
  }

  lemma SmallMultiple(cell: int, d: int, r: int)
    requires cell > 0 && cell * d == r && 0 <= r < cell
    ensures r == 0
  {
  }

  lemma MultipleOf(n: int, k: int, cell: int)
    requires cell > 1 && n == cell * k
    ensures n % cell == 0
  {
    var q := n / cell;
    assert cell * (k - q) == cell * k - cell * q;
    SmallMultiple(cell, k - q, n % cell);
  }

  datatype Overlap = Apart | Partial | Within

  /** guac_common_rect_intersects; touching edges count as intersecting. */
  function Intersects(rect: Rect, other: Rect): (o: Overlap)
    ensures (exists px, py :: rect.Has(px, py) && other.Has(px, py)) ==> o != Apart
    ensures o == Within ==> forall px, py :: rect.Has(px, py) ==> other.Has(px, py)
    ensures o == Within ==> rect.Inside(other)
  {
    if other.x + other.width < rect.x || rect.x + rect.width < other.x
       || other.y + other.height < rect.y || rect.y + rect.height < other.y then Apart
    else if rect.Inside(other) then Within
    else Partial
  }

  /** Rectangles are apart exactly if they do not even share a point of their borders. */
  lemma ApartIff(rect: Rect, other: Rect)
    requires rect.width >= 0 && rect.height >= 0 && other.width >= 0 && other.height >= 0
    ensures Intersects(rect, other) != Apart <==> exists px, py :: rect.Touches(px, py) && other.Touches(px, py)
    ensures Intersects(rect, other) == Within <==> rect.Inside(other)
  {
    if Intersects(rect, other) != Apart {
      var px, py := Max(rect.x, other.x), Max(rect.y, other.y);
      assert rect.Touches(px, py) && other.Touches(px, py);
    }
  }

  datatype Split = Whole | Cut(rest: Rect, piece: Rect)

  /** guac_common_rect_clip_and_split: cuts one strip outside `hole` off `rect`. */
  function ClipAndSplit(rect: Rect, hole: Rect): Split {
    if Intersects(rect, hole) == Apart then Whole
    else if rect.y < hole.y then
      Cut(Rect(rect.x, hole.y, rect.width, rect.y + rect.height - hole.y),
          Rect(rect.x, rect.y, rect.width, hole.y - rect.y))
    else if rect.x < hole.x then
      Cut(Rect(hole.x, rect.y, rect.x + rect.width - hole.x, rect.height),
          Rect(rect.x, rect.y, hole.x - rect.x, rect.height))
    else if rect.y + rect.height > hole.y + hole.height then
      Cut(Rect(rect.x, rect.y, rect.width, hole.y + hole.height - rect.y),
          Rect(rect.x, hole.y + hole.height, rect.width, rect.y + rect.height - (hole.y + hole.height)))
    else if rect.x + rect.width > hole.x + hole.width then
      Cut(Rect(rect.x, rect.y, hole.x + hole.width - rect.x, rect.height),
          Rect(hole.x + hole.width, rect.y, rect.x + rect.width - (hole.x + hole.width), rect.height))
    else Whole
  }

  /** The number of edges of `rect` that stick out of `hole`. */
  function Overhang(rect: Rect, hole: Rect): nat {
    (if rect.y < hole.y then 1 else 0) + (if rect.x < hole.x then 1 else 0)
    + (if rect.y + rect.height > hole.y + hole.height then 1 else 0)
    + (if rect.x + rect.width > hole.x + hole.width then 1 else 0)
  }

  lemma SplitProgress(rect: Rect, hole: Rect)
    requires rect.width >= 0 && rect.height >= 0 && hole.width >= 0 && hole.height >= 0
    requires ClipAndSplit(rect, hole).Cut?
    ensures Overhang(ClipAndSplit(rect, hole).rest, hole) == Overhang(rect, hole) - 1
    ensures ClipAndSplit(rect, hole).rest.width >= 0 && ClipAndSplit(rect, hole).rest.height >= 0
    ensures Intersects(ClipAndSplit(rect, hole).rest, hole) != Apart
  {
  }

  /** The strips cut off by invoking ClipAndSplit until it answers Whole, as its documentation
      in src/common/common/rect.h prescribes. */
  function Pieces(rect: Rect, hole: Rect): (ps: seq<Rect>)
    requires rect.width >= 0 && rect.height >= 0 && hole.width >= 0 && hole.height >= 0
    ensures |ps| <= Overhang(rect, hole) <= 4
    decreases Overhang(rect, hole)
  {
    match ClipAndSplit(rect, hole)
    case Whole => []
    case Cut(rest, piece) =>
      SplitProgress(rect, hole);
      [piece] + Pieces(rest, hole)
  }

  /** What is left of `rect` once no further strip can be cut off. */
  function Remainder(rect: Rect, hole: Rect): Rect
    requires rect.width >= 0 && rect.height >= 0 && hole.width >= 0 && hole.height >= 0
    decreases Overhang(rect, hole)
  {
    match ClipAndSplit(rect, hole)
    case Whole => rect
    case Cut(rest, piece) =>
      SplitProgress(rect, hole);
      Remainder(rest, hole)
  }

  ghost predicate Covered(ps: seq<Rect>, px: int, py: int) {
    exists k :: 0 <= k < |ps| && ps[k].Has(px, py)
  }

  /** Iterated splitting partitions `rect` minus `hole`: every pixel of it is in one strip and
      only one, no strip meets the hole, and what remains is exactly the overlap. */
  lemma {:induction false} PiecesPartition(rect: Rect, hole: Rect)
    requires rect.width >= 0 && rect.height >= 0 && hole.width >= 0 && hole.height >= 0
    requires Intersects(rect, hole) != Apart
    ensures Remainder(rect, hole).Inside(hole)
    ensures forall px, py :: Covered(Pieces(rect, hole), px, py) <==> rect.Has(px, py) && !hole.Has(px, py)
    ensures forall px, py :: Remainder(rect, hole).Has(px, py) <==> rect.Has(px, py) && hole.Has(px, py)
    ensures forall i, j, px, py :: 0 <= i < j < |Pieces(rect, hole)| && Pieces(rect, hole)[i].Has(px, py)
              ==> !Pieces(rect, hole)[j].Has(px, py)
    decreases Overhang(rect, hole)
  {
    match ClipAndSplit(rect, hole)
    case Whole =>
    case Cut(rest, piece) =>
      SplitProgress(rect, hole);
      PiecesPartition(rest, hole);
      var ps := Pieces(rest, hole);
      assert Pieces(rect, hole) == [piece] + ps;
      forall px, py
        ensures Covered([piece] + ps, px, py) <==> piece.Has(px, py) || Covered(ps, px, py)
      {
        if piece.Has(px, py) { assert ([piece] + ps)[0].Has(px, py); }
        if Covered(ps, px, py) {
          var k :| 0 <= k < |ps| && ps[k].Has(px, py);
          assert ([piece] + ps)[k + 1].Has(px, py);
        }
      }
      forall px, py
        ensures rect.Has(px, py) <==> piece.Has(px, py) || rest.Has(px, py)
        ensures !(piece.Has(px, py) && rest.Has(px, py))
        ensures !(piece.Has(px, py) && hole.Has(px, py))
      {
      }
      forall j, px, py | 0 <= j < |ps| && piece.Has(px, py)
        ensures !ps[j].Has(px, py)
      {
        if ps[j].Has(px, py) { assert Covered(ps, px, py); }
      }
  }
}
