/** Values of two-dimensional buffers. */
module Grids {

  /** The value of a two-dimensional buffer: rows of pixels (or of anything else). */
  type Grid<T> = seq<seq<T>>

  ghost predicate IsGrid<T>(g: Grid<T>, h: int, w: int) {
    |g| == h && forall y :: 0 <= y < h ==> |g[y]| == w
  }

  ghost function Snapshot<T>(a: array2<T>): (g: Grid<T>)
    reads a
    ensures IsGrid(g, a.Length0, a.Length1)
    ensures forall y, x :: 0 <= y < a.Length0 && 0 <= x < a.Length1 ==> g[y][x] == a[y, x]
  {
    seq(a.Length0, y requires 0 <= y < a.Length0 reads a =>
      seq(a.Length1, x requires 0 <= x < a.Length1 reads a => a[y, x]))
  }
}
