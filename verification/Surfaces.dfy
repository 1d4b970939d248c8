module Surfaces {
  import opened Grids
  import opened Rects
  import opened Pixels
  import opened Boxes
  import opened Client
  import opened Queues

  /** __guac_common_should_combine, given whether the surface is realized, whether it is dirty, its
      dirty rectangle, the new rectangle, and whether the update is free of image data.  The cost
      heuristics are arbitrary here: nothing below depends on the answer. */
  type CombinePolicy = (bool, bool, Rect, Rect, bool) -> bool

  /** Traversing `rect` in this direction reads every source pixel of the same buffer before
      that pixel is overwritten. */
  predicate SafeOrder(sx: int, sy: int, rect: Rect, back: bool) {
    if back then sy < rect.y || (sy == rect.y && sx <= rect.x)
    else rect.y < sy || (rect.y == sy && rect.x <= sx)
  }

  lemma SourceUnread(sx: int, sy: int, rect: Rect, back: bool, y: int, x: int)
    requires SafeOrder(sx, sy, rect, back) && 0 <= x < rect.width && 0 <= y < rect.height
    ensures var here := Here(rect, back, y, x);
            !Passed(rect, back, y, x, Point(sx + here.x - rect.x, sy + here.y - rect.y))
  {
  }

  class Surface {
    const width: nat
    const height: nat
    const buffer: array2<Pixel>        // buffer[y, x]
    const policy: CombinePolicy
    const queue: array<Entry>          // bitmap_queue
    var queueLength: int               // bitmap_queue_length
    var dirty: bool
    var dirtyRect: Rect
    var realized: bool
    var clipped: bool
    var clipRect: Rect

    // What the client shows in this layer, and the rectangles sent to it as images.
    ghost const mix: Blend
    ghost var remote: Grid<Pixel>
    ghost var sent: seq<Rect>

    /** guac_common_surface_alloc: local and remote image start out fully transparent. */
    constructor (w: nat, h: nat, layerIndex: int, policy: CombinePolicy, ghost mix: Blend)
      ensures Valid() && Coherent() && fresh(buffer) && fresh(queue)
      ensures width == w && height == h && this.policy == policy && this.mix == mix
      ensures !dirty && queueLength == 0 && sent == []
      ensures forall y, x :: 0 <= y < h && 0 <= x < w ==> buffer[y, x] == 0
    {
      width, height := w, h;
      buffer := new Pixel[h, w]((y, x) => 0);
      this.policy, this.mix := policy, mix;
      queue := new Entry[QUEUE_SIZE](i => Entry(false, Rect(0, 0, 0, 0)));
      queueLength := 0;
      dirty, dirtyRect := false, Rect(0, 0, 0, 0);
      realized := layerIndex >= 0;
      clipped, clipRect := false, Rect(0, 0, 0, 0);
      remote := seq(h, y => seq(w, x => 0));
      sent := [];
    }

    /** The invariant between operations; one queue slot stays reserved for the final flush. */
    ghost predicate Valid()
      reads this
    {
      && Sized() && IsGrid(remote, height, width)
      && queue.Length == QUEUE_SIZE && 0 <= queueLength < QUEUE_SIZE
      && (clipped ==> clipRect.x >= 0 && clipRect.y >= 0
                      && clipRect.x + clipRect.width <= width && clipRect.y + clipRect.height <= height)
    }

    ghost predicate InBounds(x: int, y: int) {
      0 <= x < width && 0 <= y < height
    }

    /** Pixel (x, y) is in the dirty rectangle or in a queued update. */
    ghost predicate Pending(x: int, y: int)
      reads this`dirty, this`dirtyRect, this`queueLength, queue
      requires 0 <= queueLength <= queue.Length
    {
      (dirty && dirtyRect.Has(x, y)) || Awaits(queue[..queueLength], x, y)
    }

    /** No update is pending at all. */
    ghost predicate Quiet()
      reads this`dirty, this`queueLength
    {
      !dirty && queueLength == 0
    }

    /** Wherever the client's image differs from `image`, an update is pending. */
    ghost predicate CoherentWith(image: Grid<Pixel>)
      reads this, queue
      requires Valid()
    {
      forall p :: Differ(remote, image, p) ==> Pending(p.x, p.y)
    }

    /** Wherever the client's image differs from the local one, an update is pending. */
    ghost predicate Coherent()
      reads this, buffer, queue
      requires Valid()
    {
      CoherentWith(Pixels())
    }

    ghost function Pixels(): (g: Grid<Pixel>)
      reads buffer
    {
      Snapshot(buffer)
    }

    ghost predicate Sized() {
      buffer.Length0 == height && buffer.Length1 == width
    }

    function Bounds(): Rect {
      Rect(0, 0, width, height)
    }

    /** The passed pixels of `rect` have the colours of `want`, all others those of `was`. */
    ghost predicate Painted(was: Grid<Pixel>, want: Grid<Pixel>, rect: Rect, back: bool, y: int, x: int)
      reads buffer
    {
      && Sized() && IsGrid(was, height, width) && IsGrid(want, height, width) && rect.Inside(Bounds())
      && forall px, py :: 0 <= px < width && 0 <= py < height ==>
            buffer[py, px] == if Passed(rect, back, y, x, Point(px, py)) then want[py][px] else was[py][px]
    }

    /** One step of a pixel loop: stores `color` at the current position if it differs. */
    method Store(rect: Rect, back: bool, y: int, x: int, color: Pixel, ghost was: Grid<Pixel>, ghost want: Grid<Pixel>)
      returns (changed: bool)
      requires Painted(was, want, rect, back, y, x)
      requires 0 <= x < rect.width && 0 <= y < rect.height
      requires var here := Here(rect, back, y, x); color == want[here.y][here.x]
      modifies buffer
      ensures Painted(was, want, rect, back, y, x + 1)
      ensures changed <==> Differ(was, want, Here(rect, back, y, x))
    {
      var here := Here(rect, back, y, x);
      PassOne(rect, back, y, x, here);
      changed := buffer[here.y, here.x] != color;
      if changed {
        buffer[here.y, here.x] := color;
      }
      forall px, py | 0 <= px < width && 0 <= py < height
        ensures buffer[py, px] == if Passed(rect, back, y, x + 1, Point(px, py)) then want[py][px] else was[py][px]
      {
        PassOne(rect, back, y, x, Point(px, py));
      }
    }

    lemma PaintedRow(was: Grid<Pixel>, want: Grid<Pixel>, rect: Rect, back: bool, y: int)
      requires 0 <= y < rect.height
      requires Painted(was, want, rect, back, y, rect.width)
      ensures Painted(was, want, rect, back, y + 1, 0)
    {
      forall px, py | 0 <= px < width && 0 <= py < height
        ensures Passed(rect, back, y + 1, 0, Point(px, py)) <==> Passed(rect, back, y, rect.width, Point(px, py))
      {
        PassRow(rect, back, y, Point(px, py));
      }
    }

    lemma PaintedNone(was: Grid<Pixel>, want: Grid<Pixel>, rect: Rect, back: bool)
      requires Sized() && was == Pixels() && IsGrid(want, height, width) && rect.Inside(Bounds())
      ensures Painted(was, want, rect, back, 0, 0)
    {
    }

    lemma PaintedAll(was: Grid<Pixel>, want: Grid<Pixel>, rect: Rect, back: bool)
      requires rect.height >= 0
      requires Painted(was, want, rect, back, rect.height, 0)
      requires forall p :: Differ(was, want, p) ==> rect.Has(p.x, p.y)
      ensures Pixels() == want
    {
      forall p ensures !Differ(Pixels(), want, p) {
        if 0 <= p.x < width && 0 <= p.y < height {
          assert rect.Has(p.x, p.y) ==> Passed(rect, back, rect.height, 0, p);
          assert rect.Has(p.x, p.y) || !Differ(was, want, p);
        }
      }
      SameGrid(Pixels(), want, height, width);
    }

    /** One step of a pixel loop: inks the current pixel, and tells whether this changed it. */
    method InkPixel(src: array2<Pixel>, sx: int, sy: int, rect: Rect, ink: Ink, back: bool, y: int, x: int,
                    ghost was: Grid<Pixel>, ghost want: Grid<Pixel>, ghost from: Grid<Pixel>)
      returns (changed: bool)
      requires Painted(was, want, rect, back, y, x)
      requires Inked(was, want, height, width, from, sx, sy, rect, ink) && IsGrid(from, src.Length0, src.Length1)
      requires if src == buffer then from == was && SafeOrder(sx, sy, rect, back) else from == Snapshot(src)
      requires 0 <= x < rect.width && 0 <= y < rect.height
      modifies buffer
      ensures Painted(was, want, rect, back, y, x + 1)
      ensures changed <==> Differ(was, want, Here(rect, back, y, x))
    {
      var here := Here(rect, back, y, x);
      PassOne(rect, back, y, x, here);
      var source := Point(sx + here.x - rect.x, sy + here.y - rect.y);
      InkedAt(was, want, height, width, from, sx, sy, rect, ink, here.x, here.y, source.x, source.y);
      if src == buffer {
        SourceUnread(sx, sy, rect, back, y, x);
      }
      assert src[source.y, source.x] == from[source.y][source.x];
      var color := InkColor(ink, src[source.y, source.x], buffer[here.y, here.x]);
      changed := Store(rect, back, y, x, color, was, want);
    }

    /** ... and grows the box if it did. */
    method InkNext(src: array2<Pixel>, sx: int, sy: int, rect: Rect, ink: Ink, back: bool, y: int, x: int, box: Box,
                   ghost start: Box, ghost was: Grid<Pixel>, ghost want: Grid<Pixel>, ghost from: Grid<Pixel>)
      returns (box': Box)
      requires Painted(was, want, rect, back, y, x)
      requires Inked(was, want, height, width, from, sx, sy, rect, ink) && IsGrid(from, src.Length0, src.Length1)
      requires if src == buffer then from == was && SafeOrder(sx, sy, rect, back) else from == Snapshot(src)
      requires 0 <= x < rect.width && 0 <= y < rect.height
      requires box == GrowAll(start, Trail(was, want, rect, back, y, x))
      modifies buffer
      ensures Painted(was, want, rect, back, y, x + 1)
      ensures box' == GrowAll(start, Trail(was, want, rect, back, y, x + 1))
    {
      var changed := InkPixel(src, sx, sy, rect, ink, back, y, x, was, want, from);
      box' := if changed then Grow(box, x, y) else box;
    }

    /** One row of a pixel loop. */
    method InkRow(src: array2<Pixel>, sx: int, sy: int, rect: Rect, ink: Ink, back: bool, y: int, box: Box,
                  ghost start: Box, ghost was: Grid<Pixel>, ghost want: Grid<Pixel>, ghost from: Grid<Pixel>)
      returns (box': Box)
      requires Painted(was, want, rect, back, y, 0)
      requires Inked(was, want, height, width, from, sx, sy, rect, ink) && IsGrid(from, src.Length0, src.Length1)
      requires if src == buffer then from == was && SafeOrder(sx, sy, rect, back) else from == Snapshot(src)
      requires rect.width > 0 && 0 <= y < rect.height
      requires box == GrowAll(start, Trail(was, want, rect, back, y, 0))
      modifies buffer
      ensures Painted(was, want, rect, back, y + 1, 0)
      ensures box' == GrowAll(start, Trail(was, want, rect, back, y + 1, 0))
    {
      box' := box;
      var x := 0;
      while x < rect.width
        invariant 0 <= x <= rect.width
        invariant Painted(was, want, rect, back, y, x)
        invariant box' == GrowAll(start, Trail(was, want, rect, back, y, x))
      {
        box' := InkNext(src, sx, sy, rect, ink, back, y, x, box', start, was, want, from);
        x := x + 1;
      }
      PaintedRow(was, want, rect, back, y);
    }

    /** The nested loop of __guac_common_surface_put, _set, _fill_mask and _transfer, which differ
        in the colour they compute, in their direction, and in whether they keep a box. */
    method InkRows(src: array2<Pixel>, sx: int, sy: int, rect: Rect, ink: Ink, back: bool, start: Box,
                   ghost was: Grid<Pixel>, ghost want: Grid<Pixel>, ghost from: Grid<Pixel>)
      returns (box: Box)
      requires Sized() && was == Pixels() && from == Snapshot(src)
      requires rect.width > 0 && rect.height > 0
      requires Inked(was, want, height, width, from, sx, sy, rect, ink)
      requires src == buffer ==> SafeOrder(sx, sy, rect, back)
      modifies buffer
      ensures Pixels() == want
      ensures box == GrowAll(start, Trail(was, want, rect, back, rect.height, 0))
    {
      box := start;
      PaintedNone(was, want, rect, back);
      var y := 0;
      while y < rect.height
        invariant 0 <= y <= rect.height
        invariant Painted(was, want, rect, back, y, 0)
        invariant box == GrowAll(start, Trail(was, want, rect, back, y, 0))
      {
        box := InkRow(src, sx, sy, rect, ink, back, y, box, start, was, want, from);
        y := y + 1;
      }
      InkedWithin(was, want, height, width, from, sx, sy, rect, ink);
      PaintedAll(was, want, rect, back);
    }

    /** __guac_common_surface_put */
    method Put(src: array2<Pixel>, sx: int, sy: int, rect: Rect, rgb: bool)
      returns (sx': int, sy': int, r: Rect)
      requires Sized() && src != buffer
      requires !rect.Empty() && rect.Inside(Bounds())
      requires 0 <= sx && sx + rect.width <= src.Length1 && 0 <= sy && sy + rect.height <= src.Length0
      modifies buffer
      ensures Inked(old(Pixels()), Pixels(), height, width, Snapshot(src), sx, sy, rect, Draw(rgb))
      ensures Tight(r, old(Pixels()), Pixels()) && r.Inside(rect)
      ensures Pixels() == old(Pixels()) ==> r.Empty()
      ensures sx' - sx == r.x - rect.x && sy' - sy == r.y - rect.y
    {
      var start := Box(rect.width, rect.height, 0, 0);
      ghost var was, from := Pixels(), Snapshot(src);
      ghost var want := InkedExists(was, height, width, from, sx, sy, rect, Draw(rgb));
      var box := InkRows(src, sx, sy, rect, Draw(rgb), false, start, was, want, from);
      InkedWithin(was, want, height, width, from, sx, sy, rect, Draw(rgb));
      ShrinkTight(was, want, height, width, rect, false, start);
      r := Shrink(rect, box);
      sx', sy' := sx + r.x - rect.x, sy + r.y - rect.y;
    }

    /** __guac_common_surface_set */
    method Set(rect: Rect, color: Pixel) returns (r: Rect)
      requires Sized() && !rect.Empty() && rect.Inside(Bounds())
      modifies buffer
      ensures Plain(old(Pixels()), Pixels(), height, width, rect, color)
      ensures IsLeft(r, old(Pixels()), Pixels(), rect)
    {
      var start := Box(rect.width - 1, rect.height - 1, 0, 0);
      ghost var was := Pixels();
      ghost var want := InkedExists(was, height, width, was, rect.x, rect.y, rect, Solid(color));
      var box := InkRows(buffer, rect.x, rect.y, rect, Solid(color), false, start, was, want, was);
      InkedWithin(was, want, height, width, was, rect.x, rect.y, rect, Solid(color));
      InkedPlain(was, want, height, width, was, rect.x, rect.y, rect, color);
      ShrinkTight(was, want, height, width, rect, false, start);
      r := Shrink(rect, box);
    }

    /** __guac_common_surface_fill_mask */
    method FillMask(src: array2<Pixel>, sx: int, sy: int, rect: Rect, color24: Pixel)
      requires Sized() && src != buffer
      requires !rect.Empty() && rect.Inside(Bounds())
      requires 0 <= sx && sx + rect.width <= src.Length1 && 0 <= sy && sy + rect.height <= src.Length0
      modifies buffer
      ensures Inked(old(Pixels()), Pixels(), height, width, Snapshot(src), sx, sy, rect, Stencil(color24))
    {
      ghost var was, from := Pixels(), Snapshot(src);
      ghost var want := InkedExists(was, height, width, from, sx, sy, rect, Stencil(color24));
      var box := InkRows(src, sx, sy, rect, Stencil(color24), false, Box(0, 0, 0, 0), was, want, from);
    }

    /** __guac_common_surface_transfer: whatever the overlap of source and destination, the result
        is that of transferring all pixels at once. */
    method Transfer(src: Surface, sx: int, sy: int, op: TransferFunction, rect: Rect)
      returns (sx': int, sy': int, r: Rect)
      requires Sized() && src.Sized() && (src != this ==> src.buffer != buffer)
      requires !rect.Empty() && rect.Inside(Bounds())
      requires 0 <= sx && sx + rect.width <= src.width && 0 <= sy && sy + rect.height <= src.height
      modifies buffer
      ensures Inked(old(Pixels()), Pixels(), height, width, old(src.Pixels()), sx, sy, rect, Combine(op))
      ensures IsLeft(r, old(Pixels()), Pixels(), rect)
      ensures sx' - sx == r.x - rect.x && sy' - sy == r.y - rect.y
    {
      var start := Box(rect.width - 1, rect.height - 1, 0, 0);
      var forwards := src != this || rect.y < sy || (rect.y == sy && rect.x < sx);
      ghost var was, from := Pixels(), src.Pixels();
      ghost var want := InkedExists(was, height, width, from, sx, sy, rect, Combine(op));
      var box := InkRows(src.buffer, sx, sy, rect, Combine(op), !forwards, start, was, want, from);
      InkedWithin(was, want, height, width, from, sx, sy, rect, Combine(op));
      ShrinkTight(was, want, height, width, rect, !forwards, start);
      r := Shrink(rect, if forwards then box else Mirror(box, rect));
      sx', sy' := sx + r.x - rect.x, sy + r.y - rect.y;
    }

    /** __guac_common_mark_dirty */
    method MarkDirty(rect: Rect)
      modifies this`dirty, this`dirtyRect
      ensures rect.Empty() ==> dirty == old(dirty) && dirtyRect == old(dirtyRect)
      ensures !rect.Empty() ==> dirty && dirtyRect == if old(dirty) then Extend(old(dirtyRect), rect) else rect
    {
      if rect.Empty() {
        return;
      }
      if dirty {
        dirtyRect := Extend(dirtyRect, rect);
      } else {
        dirtyRect := rect;
        dirty := true;
      }
    }

    /** __guac_common_surface_flush_to_queue */
    method FlushToQueue()
      requires queue.Length == QUEUE_SIZE && 0 <= queueLength < QUEUE_SIZE
      modifies this`dirty, this`queueLength, queue
      ensures !dirty && queueLength == old(queueLength) + if old(dirty) then 1 else 0
      ensures forall k :: 0 <= k < old(queueLength) ==> queue[k] == old(queue[k])
      ensures forall x, y :: Pending(x, y) <==> old(Pending(x, y))
    {
      if !dirty {
        return;
      }
      queue[queueLength] := Entry(false, dirtyRect);
      queueLength := queueLength + 1;
      dirty := false;
      assert queue[..queueLength] == old(queue[..queueLength]) + [Entry(false, dirtyRect)];
      forall x, y
        ensures Pending(x, y) <==> old(Pending(x, y))
      {
        AwaitsAppend(old(queue[..queueLength]), Entry(false, dirtyRect), x, y);
      }
    }

    /** __guac_common_surface_is_opaque */
    method IsOpaque(rect: Rect) returns (opaqueOnly: bool)
      requires Sized() && rect.Inside(Bounds())
      ensures opaqueOnly <==> forall x, y :: rect.Has(x, y) ==> Opaque(buffer[y, x])
    {
      var y := 0;
      while y < rect.height
        invariant 0 <= y
        invariant forall px, py :: rect.Has(px, py) && py < rect.y + y ==> Opaque(buffer[py, px])
      {
        var x := 0;
        while x < rect.width
          invariant 0 <= x
          invariant forall px, py :: rect.Has(px, py) && py < rect.y + y ==> Opaque(buffer[py, px])
          invariant forall px, py :: rect.Has(px, py) && py == rect.y + y && px < rect.x + x ==> Opaque(buffer[py, px])
        {
          if !Opaque(buffer[rect.y + y, rect.x + x]) {
            assert rect.Has(rect.x + x, rect.y + y);
            return false;
          }
          x := x + 1;
        }
        y := y + 1;
      }
      return true;
    }

    /** A rectangle sent after the first n has pixel (x, y). */
    ghost predicate SentSince(n: int, x: int, y: int)
      reads this`sent
    {
      exists k :: 0 <= n <= k < |sent| && sent[k].Has(x, y)
    }

    /** __guac_common_surface_flush_to_png */
    method FlushToPng(opaqueOnly: bool)
      requires Sized() && IsGrid(remote, height, width)
      requires dirty ==> dirtyRect.Inside(Bounds())
      requires dirty && opaqueOnly ==> forall x, y :: dirtyRect.Has(x, y) ==> Opaque(buffer[y, x])
      modifies this`dirty, this`realized, this`remote, this`sent
      ensures IsGrid(remote, height, width) && !dirty
      ensures sent == if old(dirty) then old(sent) + [dirtyRect] else old(sent)
      ensures forall x, y :: InBounds(x, y) ==>
                remote[y][x] == if old(dirty) && dirtyRect.Has(x, y) then buffer[y, x] else old(remote[y][x])
    {
      if dirty {
        if !opaqueOnly {
          SendErase(dirtyRect);
        }
        SendImage(dirtyRect, opaqueOnly);
        forall x, y | InBounds(x, y) && opaqueOnly && dirtyRect.Has(x, y)
          ensures buffer[y, x] | 0xFF000000 == buffer[y, x]
        {
          OpaqueUnchanged(buffer[y, x]);
        }
        sent := sent + [dirtyRect];
        realized := true;
        dirty := false;
      }
    }

    /** guac_protocol_send_rect and guac_protocol_send_cfill with GUAC_COMP_ROUT */
    ghost method SendErase(rect: Rect)
      requires IsGrid(remote, height, width)
      modifies this`remote
      ensures Erased(old(remote), remote, height, width, rect)
    {
      var was := remote;
      remote := seq(height, y requires 0 <= y < height => seq(width, x requires 0 <= x < width =>
        if rect.Has(x, y) then 0 else was[y][x]));
    }

    /** guac_client_stream_png with GUAC_COMP_OVER */
    ghost method SendImage(rect: Rect, rgb: bool)
      requires Sized() && IsGrid(remote, height, width)
      modifies this`remote
      ensures Imaged(mix, old(remote), remote, height, width, rect, Pixels(), rgb)
    {
      var was, data := remote, Pixels();
      remote := seq(height, y requires 0 <= y < height => seq(width, x requires 0 <= x < width =>
        if rect.Has(x, y) then Over(mix, was[y][x], if rgb then data[y][x] | 0xFF000000 else data[y][x])
            else was[y][x]));
    }

    /** qsort of the queued updates */
    method SortQueue()
      requires queue.Length == QUEUE_SIZE && 0 <= queueLength <= QUEUE_SIZE
      modifies queue
      ensures Ordered(queue[..queueLength])
      ensures multiset(queue[..queueLength]) == old(multiset(queue[..queueLength]))
      ensures forall x, y :: Pending(x, y) <==> old(Pending(x, y))
    {
      ghost var was := queue[..queueLength];
      var sorted := Sort(queue[..queueLength]);
      SortPermutes(was);
      forall k | 0 <= k < queueLength {
        queue[k] := sorted[k];
      }
      assert queue[..queueLength] == sorted;
      forall x, y
        ensures Awaits(was, x, y) <==> Awaits(sorted, x, y)
      {
        if Awaits(was, x, y) { AwaitsPermuted(was, sorted, x, y); }
        if Awaits(sorted, x, y) { AwaitsPermuted(sorted, was, x, y); }
      }
    }

    /** Every in-bounds pixel pending before is pending still. */
    twostate predicate StillPending()
      reads this, queue
      requires 0 <= old(queueLength) <= queue.Length && 0 <= queueLength <= queue.Length
    {
      forall x, y :: InBounds(x, y) && old(Pending(x, y)) ==> Pending(x, y)
    }

    /** No in-bounds pixel is pending that was not before. */
    twostate predicate NoOtherPending()
      reads this, queue
      requires 0 <= old(queueLength) <= queue.Length && 0 <= queueLength <= queue.Length
    {
      forall x, y :: InBounds(x, y) && Pending(x, y) ==> old(Pending(x, y))
    }

    /** Considers queue entry j for combination with the dirty rectangle. */
    method Consider(j: int) returns (taken: bool)
      requires queue.Length == QUEUE_SIZE && 0 <= j < queueLength <= QUEUE_SIZE && !queue[j].flushed
      requires dirty ==> dirtyRect.Inside(Bounds()) && !dirtyRect.Empty()
      modifies this`dirty, this`dirtyRect, queue
      ensures dirty ==> dirtyRect.Inside(Bounds()) && !dirtyRect.Empty()
      ensures dirty <==> old(dirty) || taken
      ensures !old(dirty) ==> queue[j].flushed
      ensures forall k :: 0 <= k < queueLength && k != j ==> queue[k] == old(queue[k])
      ensures StillPending() && (NeverCombines(policy) ==> NoOtherPending())
    {
      taken := false;
      ghost var was := queue[..queueLength];
      var rect := Constrain(queue[j].rect, Bounds());
      CombinesOnce(policy, realized, dirty, dirtyRect, rect, false);
      queue[j] := queue[j].(rect := rect);
      if rect.width <= 0 || rect.height <= 0 {
        queue[j] := queue[j].(flushed := true);
      } else if policy(realized, dirty, dirtyRect, rect, false) || !dirty {
        MarkDirty(rect);
        queue[j] := queue[j].(flushed := true);
        taken := true;
      }
      if NeverCombines(policy) {
        CombinedAlone(was, queue[..queueLength], j, old(dirty), dirty, old(dirtyRect), dirtyRect);
      }
      forall x, y | InBounds(x, y) && old(Pending(x, y))
        ensures Pending(x, y)
      {
        if Awaits(was, x, y) {
          var k :| 0 <= k < |was| && !was[k].flushed && was[k].rect.Has(x, y);
          assert Bounds().Has(x, y);
          if k != j || !queue[j].flushed { assert queue[..queueLength][k].rect.Has(x, y); }
        }
      }
    }

    /** The inner loop of __guac_common_surface_flush: builds up a dirty rectangle out of queue
        entry i and any of the later ones. */
    method Gather(i: int) returns (combined: int)
      requires queue.Length == QUEUE_SIZE && 0 <= i < queueLength <= QUEUE_SIZE && !dirty
      modifies this`dirty, this`dirtyRect, queue
      ensures dirty ==> dirtyRect.Inside(Bounds()) && !dirtyRect.Empty()
      ensures dirty <==> combined > 0
      ensures queue[i].flushed
      ensures forall k :: 0 <= k < i ==> queue[k] == old(queue[k])
      ensures StillPending() && (NeverCombines(policy) ==> NoOtherPending())
    {
      combined := 0;
      var j := i;
      while j < queueLength
        invariant i <= j <= queueLength
        invariant dirty ==> dirtyRect.Inside(Bounds()) && !dirtyRect.Empty()
        invariant dirty <==> combined > 0
        invariant combined >= 0
        invariant if j == i then !dirty else queue[i].flushed
        invariant forall k :: 0 <= k < i ==> queue[k] == old(queue[k])
        invariant StillPending() && (NeverCombines(policy) ==> NoOtherPending())
      {
        if !queue[j].flushed {
          label before:
          var taken := Consider(j);
          assert forall x, y :: InBounds(x, y) && old@before(Pending(x, y)) ==> Pending(x, y);
          assert NeverCombines(policy) ==> forall x, y :: InBounds(x, y) && Pending(x, y) ==> old@before(Pending(x, y));
          if taken {
            combined := combined + 1;
          }
        }
        j := j + 1;
      }
    }

    /** Progress of a flush that started from image `was` with n rectangles sent: the rectangles
        sent since are in bounds and not empty, they and only they show local pixels, and every
        pixel of `due` has been sent or is still pending, and no other if no updates are combined. */
    ghost predicate Flushing(n: nat, was: Grid<Pixel>, due: set<Point>)
      reads this, buffer, queue
    {
      && Sized() && IsGrid(was, height, width) && IsGrid(remote, height, width)
      && queue.Length == QUEUE_SIZE && 0 <= queueLength <= QUEUE_SIZE && n <= |sent|
      && (forall k :: n <= k < |sent| ==> sent[k].Inside(Bounds()) && !sent[k].Empty())
      && (forall x, y :: InBounds(x, y) ==> remote[y][x] == if SentSince(n, x, y) then buffer[y, x] else was[y][x])
      && (forall p :: p in due ==> InBounds(p.x, p.y) && (Pending(p.x, p.y) || SentSince(n, p.x, p.y)))
      && (NeverCombines(policy) ==> forall x, y :: InBounds(x, y) && (Pending(x, y) || SentSince(n, x, y)) ==>
            Point(x, y) in due)
    }

    /** One iteration of the outer loop of __guac_common_surface_flush, for an unflushed entry. */
    method FlushEntry(i: int, originalLength: int, ghost n: nat, ghost was: Grid<Pixel>, ghost due: set<Point>)
      requires Flushing(n, was, due) && 0 <= i < queueLength && !dirty
      modifies this`dirty, this`dirtyRect, this`queueLength, this`realized, this`remote, this`sent, queue
      ensures Flushing(n, was, due) && !dirty && i < queueLength
      ensures |sent| >= old(|sent|) && sent[..old(|sent|)] == old(sent)
      ensures queue[i].flushed
      ensures forall k :: 0 <= k < i ==> queue[k] == old(queue[k])
    {
      var combined := Gather(i);
      if (combined > 1 || i < originalLength) && queueLength < QUEUE_SIZE {
        FlushToQueue();
      } else if dirty {
        label before:
        var opaqueOnly := IsOpaque(dirtyRect);
        FlushToPng(opaqueOnly);
        SentOneMore(n, old@before(sent));
      }
    }

    lemma SentOneMore(n: nat, before: seq<Rect>)
      requires n <= |before| && |sent| == |before| + 1 && sent[..|before|] == before
      ensures forall x, y :: SentSince(n, x, y) <==>
                (exists k :: n <= k < |before| && before[k].Has(x, y)) || sent[|before|].Has(x, y)
    {
      forall x, y
        ensures SentSince(n, x, y) <==>
                  (exists k :: n <= k < |before| && before[k].Has(x, y)) || sent[|before|].Has(x, y)
      {
        if k :| n <= k < |before| && before[k].Has(x, y) { assert sent[k].Has(x, y); }
        if SentSince(n, x, y) {
          var k :| n <= k < |sent| && sent[k].Has(x, y);
          assert k < |before| ==> before[k].Has(x, y);
        }
      }
    }

    /** __guac_common_surface_flush: sends every pending update, whatever the order of the sorted
        queue and whatever the policy combines. */
    method FlushContents()
      requires Valid()
      modifies this`dirty, this`dirtyRect, this`queueLength, this`realized, this`remote, this`sent, queue
      ensures Valid() && !dirty && queueLength == 0
      ensures |sent| >= old(|sent|) && sent[..old(|sent|)] == old(sent)
      ensures forall k :: old(|sent|) <= k < |sent| ==> sent[k].Inside(Bounds()) && !sent[k].Empty()
      ensures forall x, y :: InBounds(x, y) && old(Pending(x, y)) ==> SentSince(old(|sent|), x, y)
      ensures NeverCombines(policy) ==>
                forall x, y :: InBounds(x, y) && SentSince(old(|sent|), x, y) ==> old(Pending(x, y))
      ensures forall x, y :: InBounds(x, y) ==>
                remote[y][x] == if SentSince(old(|sent|), x, y) then buffer[y, x] else old(remote[y][x])
      ensures old(Quiet()) ==> sent == old(sent) && remote == old(remote)
    {
      ghost var was, n := remote, |sent|;
      ghost var due := set x, y | 0 <= x < width && 0 <= y < height && Pending(x, y) :: Point(x, y);
      FlushToQueue();
      var originalLength := queueLength;
      SortQueue();
      assert forall x, y :: Pending(x, y) <==> old(Pending(x, y));
      FlushEntries(originalLength, n, was, due);
      forall x, y | InBounds(x, y) && old(Pending(x, y))
        ensures SentSince(n, x, y)
      {
        assert Point(x, y) in due;
      }
      queueLength := 0;
    }

    /** The outer loop of __guac_common_surface_flush. */
    method FlushEntries(originalLength: int, ghost n: nat, ghost was: Grid<Pixel>, ghost due: set<Point>)
      requires Flushing(n, was, due) && !dirty && n == |sent|
      modifies this`dirty, this`dirtyRect, this`queueLength, this`realized, this`remote, this`sent, queue
      ensures Flushing(n, was, due) && !dirty && forall k :: 0 <= k < queueLength ==> queue[k].flushed
      ensures |sent| >= n && sent[..n] == old(sent)
      ensures old(queueLength) == 0 ==> sent == old(sent) && remote == old(remote)
    {
      var i := 0;
      while i < queueLength
        invariant Flushing(n, was, due) && !dirty && 0 <= i <= queueLength
        invariant |sent| >= n && sent[..n] == old(sent)
        invariant forall k :: 0 <= k < i ==> queue[k].flushed
        invariant old(queueLength) == 0 ==> queueLength == 0 && sent == old(sent) && remote == old(remote)
        decreases QUEUE_SIZE - i
      {
        if !queue[i].flushed {
          FlushEntry(i, originalLength, n, was, due);
        }
        i := i + 1;
      }
    }

    /** guac_common_surface_flush, without the layer properties. */
    method Flush()
      requires Valid() && Coherent()
      modifies this`dirty, this`dirtyRect, this`queueLength, this`realized, this`remote, this`sent, queue
      ensures Valid() && Coherent() && Quiet()
      ensures remote == Pixels()
      ensures old(Quiet()) ==> sent == old(sent) && remote == old(remote)
    {
      FlushContents();
      forall p ensures !Differ(remote, Pixels(), p) {
        if InBounds(p.x, p.y) { assert Differ(old(remote), Pixels(), p) ==> old(Pending(p.x, p.y)); }
      }
      SameGrid(remote, Pixels(), height, width);
    }

    /** __guac_common_surface_flush_deferred */
    method FlushDeferred()
      requires Valid()
      modifies this`dirty, this`dirtyRect, this`queueLength, this`realized, this`remote, this`sent, queue
      ensures Valid()
      ensures forall x, y :: InBounds(x, y) && old(Pending(x, y)) ==> Pending(x, y) || remote[y][x] == buffer[y, x]
      ensures forall x, y :: InBounds(x, y) ==> remote[y][x] == old(remote[y][x]) || remote[y][x] == buffer[y, x]
    {
      if !dirty {
        return;
      }
      if queueLength == QUEUE_SIZE - 1 {
        FlushContents();
      }
      FlushToQueue();
    }

    /** __guac_common_clip_rect and __guac_common_bound_rect */
    function ClipTo(rect: Rect): (r: Rect)
      reads this
      ensures Valid() && !r.Empty() ==> r.Inside(Bounds()) && r.Inside(rect)
    {
      Constrain(rect, if clipped then clipRect else Bounds())
    }

    /** Records that image `was` has been changed within `rect`, to be sent as image data later. */
    method Defer(rect: Rect, ghost was: Grid<Pixel>)
      requires Valid() && IsGrid(was, height, width) && CoherentWith(was)
      requires forall p :: Differ(was, Pixels(), p) ==> rect.Has(p.x, p.y)
      modifies this`dirty, this`dirtyRect, this`queueLength, this`realized, this`remote, this`sent, queue
      ensures Valid() && Coherent()
    {
      if !policy(realized, dirty, dirtyRect, rect, false) {
        FlushDeferred();
      }
      label flushed:
      MarkDirty(rect);
      assert queue[..queueLength] == old@flushed(queue[..queueLength]);
      forall p | Differ(remote, Pixels(), p)
        ensures Pending(p.x, p.y)
      {
        assert InBounds(p.x, p.y);
        if !rect.Has(p.x, p.y) {
          assert !Differ(was, Pixels(), p);
          assert Differ(old(remote), was, p);
          assert old@flushed(Pending(p.x, p.y));
        }
      }
    }

    /** The source position and rectangle left by clipping a w-by-h source drawn at (x, y). */
    function DrawArea(x: int, y: int, w: nat, h: nat): (a: Area)
      requires Valid()
      reads this
      ensures !a.rect.Empty() ==> a.rect.Inside(Bounds())
      ensures !a.rect.Empty() ==> 0 <= a.sx && a.sx + a.rect.width <= w && 0 <= a.sy && a.sy + a.rect.height <= h
    {
      var rect := ClipTo(Rect(x, y, w, h));
      Area(rect.x - x, rect.y - y, rect)
    }

    /** guac_common_surface_draw */
    method DrawImage(x: int, y: int, src: array2<Pixel>, argb: bool)
      requires Valid() && Coherent() && src != buffer
      modifies this`dirty, this`dirtyRect, this`queueLength, this`realized, this`remote, this`sent, queue, buffer
      ensures Valid() && Coherent()
      ensures var a := old(DrawArea(x, y, src.Length1, src.Length0));
              if a.rect.Empty() then Pixels() == old(Pixels())
              else Inked(old(Pixels()), Pixels(), height, width, old(Snapshot(src)), a.sx, a.sy, a.rect, Draw(!argb))
    {
      var a := DrawArea(x, y, src.Length1, src.Length0);
      if a.rect.width <= 0 || a.rect.height <= 0 {
        return;
      }
      DrawClipped(a.sx, a.sy, src, argb, a.rect);
    }

    /** guac_common_surface_draw, once clipped to a nonempty rectangle. */
    method DrawClipped(sx: int, sy: int, src: array2<Pixel>, argb: bool, rect: Rect)
      requires Valid() && Coherent() && src != buffer && !rect.Empty() && rect.Inside(Bounds())
      requires 0 <= sx && sx + rect.width <= src.Length1 && 0 <= sy && sy + rect.height <= src.Length0
      modifies this`dirty, this`dirtyRect, this`queueLength, this`realized, this`remote, this`sent, queue, buffer
      ensures Valid() && Coherent()
      ensures Inked(old(Pixels()), Pixels(), height, width, old(Snapshot(src)), sx, sy, rect, Draw(!argb))
    {
      ghost var was := Pixels();
      var sx', sy', r := Put(src, sx, sy, rect, !argb);
      if r.width <= 0 || r.height <= 0 {
        assert was == Pixels();
        return;
      }
      Defer(r, was);
    }

    /** guac_common_surface_paint */
    method Paint(x: int, y: int, src: array2<Pixel>, color24: Pixel)
      requires Valid() && Coherent() && src != buffer
      modifies this`dirty, this`dirtyRect, this`queueLength, this`realized, this`remote, this`sent, queue, buffer
      ensures Valid() && Coherent()
      ensures var a := old(DrawArea(x, y, src.Length1, src.Length0));
              if a.rect.Empty() then Pixels() == old(Pixels())
              else Inked(old(Pixels()), Pixels(), height, width, old(Snapshot(src)), a.sx, a.sy, a.rect,
                         Stencil(color24))
    {
      var a := DrawArea(x, y, src.Length1, src.Length0);
      if a.rect.width <= 0 || a.rect.height <= 0 {
        return;
      }
      PaintClipped(a.sx, a.sy, src, color24, a.rect);
    }

    /** guac_common_surface_paint, once clipped to a nonempty rectangle. */
    method PaintClipped(sx: int, sy: int, src: array2<Pixel>, color24: Pixel, rect: Rect)
      requires Valid() && Coherent() && src != buffer && !rect.Empty() && rect.Inside(Bounds())
      requires 0 <= sx && sx + rect.width <= src.Length1 && 0 <= sy && sy + rect.height <= src.Length0
      modifies this`dirty, this`dirtyRect, this`queueLength, this`realized, this`remote, this`sent, queue, buffer
      ensures Valid() && Coherent()
      ensures Inked(old(Pixels()), Pixels(), height, width, old(Snapshot(src)), sx, sy, rect, Stencil(color24))
    {
      ghost var was, from := Pixels(), Snapshot(src);
      FillMask(src, sx, sy, rect, color24);
      InkedWithin(was, Pixels(), height, width, from, sx, sy, rect, Stencil(color24));
      Defer(rect, was);
    }

    /** guac_protocol_send_rect and guac_protocol_send_cfill with GUAC_COMP_OVER */
    ghost method SendFill(rect: Rect, color: Pixel)
      requires IsGrid(remote, height, width)
      modifies this`remote
      ensures Filled(mix, old(remote), remote, height, width, rect, color)
    {
      var was := remote;
      remote := seq(height, y requires 0 <= y < height => seq(width, x requires 0 <= x < width =>
        if rect.Has(x, y) then Over(mix, was[y][x], color) else was[y][x]));
    }

    /** guac_common_surface_set */
    method SetRect(x: int, y: int, w: int, h: int, color: Pixel)
      requires Valid() && Coherent()
      modifies this`dirty, this`dirtyRect, this`queueLength, this`realized, this`remote, this`sent, queue, buffer
      ensures Valid() && Coherent()
      ensures var rect := old(ClipTo(Rect(x, y, w, h)));
              if rect.Empty() then Pixels() == old(Pixels())
              else Plain(old(Pixels()), Pixels(), height, width, rect, color)
    {
      var rect := ClipTo(Rect(x, y, w, h));
      if rect.width <= 0 || rect.height <= 0 {
        return;
      }
      SetClipped(color, rect);
    }

    /** guac_common_surface_set, once clipped to a nonempty rectangle. */
    method SetClipped(color: Pixel, rect: Rect)
      requires Valid() && Coherent() && !rect.Empty() && rect.Inside(Bounds())
      modifies this`dirty, this`dirtyRect, this`queueLength, this`realized, this`remote, this`sent, queue, buffer
      ensures Valid() && Coherent()
      ensures Plain(old(Pixels()), Pixels(), height, width, rect, color)
    {
      ghost var was := Pixels();
      var r := Set(rect, color);
      PublishFill(r, color, was, rect);
    }

    /** The rest of guac_common_surface_set, once the rectangle is restricted to changed pixels. */
    method PublishFill(r: Rect, color: Pixel, ghost was: Grid<Pixel>, ghost rect: Rect)
      requires Valid() && IsGrid(was, height, width) && CoherentWith(was)
      requires Plain(was, Pixels(), height, width, rect, color)
      requires Tight(r, was, Pixels()) && r.Inside(rect)
      modifies this`dirty, this`dirtyRect, this`queueLength, this`realized, this`remote, this`sent, queue
      ensures Valid() && Coherent()
    {
      if r.width <= 0 || r.height <= 0 {
        assert was == Pixels();
      } else if !Opaque(color) {
        Defer(r, was);
      } else if policy(realized, dirty, dirtyRect, r, true) {
        MarkUpdate(r, was);
      } else {
        assert forall x, y :: InBounds(x, y) && r.Has(x, y) ==> buffer[y, x] == Pixels()[y][x];
        FillNow(r, color, was);
      }
    }

    /** Marks a rectangle dirty because image `was` has been changed within it. */
    method MarkUpdate(rect: Rect, ghost was: Grid<Pixel>)
      requires Valid() && IsGrid(was, height, width) && CoherentWith(was)
      requires forall p :: Differ(was, Pixels(), p) ==> rect.Has(p.x, p.y)
      modifies this`dirty, this`dirtyRect
      ensures Valid() && Coherent()
      ensures rect.Empty() || forall x, y :: rect.Has(x, y) ==> Pending(x, y)
    {
      MarkDirty(rect);
      assert queue[..queueLength] == old(queue[..queueLength]);
      forall p | Differ(remote, Pixels(), p)
        ensures Pending(p.x, p.y)
      {
        if !rect.Has(p.x, p.y) {
          assert !Differ(was, Pixels(), p);
          assert Differ(remote, was, p);
        }
      }
    }

    /** The pixels that have been sent as images after the first n of these. */
    ghost function FlushedSince(n: int): set<Point>
      reads this`sent
    {
      set x, y | 0 <= x < width && 0 <= y < height && SentSince(n, x, y) :: Point(x, y)
    }

    ghost function PendingPoints(): set<Point>
      requires 0 <= queueLength <= queue.Length
      reads this`dirty, this`dirtyRect, this`queueLength, queue
    {
      set x, y | 0 <= x < width && 0 <= y < height && Pending(x, y) :: Point(x, y)
    }

    /** A flush after image `was` has been changed: the client shows the changed image at the pixels that
        are sent, and otherwise what it was. */
    method FlushAround(ghost was: Grid<Pixel>)
      requires Valid() && IsGrid(was, height, width) && CoherentWith(was)
      modifies this`dirty, this`dirtyRect, this`queueLength, this`realized, this`remote, this`sent, queue
      ensures Valid() && Quiet() && SentBefore(was, Pixels(), remote, height, width, FlushedSince(old(|sent|)))
      ensures old(PendingPoints()) <= FlushedSince(old(|sent|))
      ensures NeverCombines(policy) ==> FlushedSince(old(|sent|)) == old(PendingPoints())
      ensures old(Quiet()) ==> sent == old(sent)
    {
      FlushContents();
      forall x, y | InBounds(x, y)
        ensures remote[y][x] == if Point(x, y) in FlushedSince(old(|sent|)) then buffer[y, x] else was[y][x]
      {
        assert Differ(old(remote), was, Point(x, y)) ==> old(Pending(x, y));
      }
    }

    /** Sends a plain rectangle at once rather than as image data. */
    method FillNow(rect: Rect, color: Pixel, ghost was: Grid<Pixel>)
      requires Valid() && IsGrid(was, height, width) && CoherentWith(was) && Opaque(color)
      requires forall p :: Differ(was, Pixels(), p) ==> rect.Has(p.x, p.y)
      requires forall x, y :: InBounds(x, y) && rect.Has(x, y) ==> buffer[y, x] == color
      modifies this`dirty, this`dirtyRect, this`queueLength, this`realized, this`remote, this`sent, queue
      ensures Valid() && Coherent()
    {
      FlushAround(was);
      ghost var shown := remote;
      SendFill(rect, color);
      realized := true;
      forall p ensures !Differ(remote, Pixels(), p) {
        if InBounds(p.x, p.y) { assert !rect.Has(p.x, p.y) ==> !Differ(was, Pixels(), p); }
      }
    }

    /** guac_common_surface_clip */
    method Clip(x: int, y: int, w: int, h: int)
      requires Valid() && Coherent()
      modifies this`clipped, this`clipRect
      ensures Valid() && Coherent() && clipped
      ensures clipRect == Constrain(if old(clipped) then old(clipRect) else Bounds(), Rect(x, y, w, h))
    {
      if !clipped {
        clipRect := Rect(0, 0, width, height);
        clipped := true;
      }
      clipRect := Constrain(clipRect, Rect(x, y, w, h));
    }

    /** guac_common_surface_reset_clip */
    method ResetClip()
      requires Valid() && Coherent()
      modifies this`clipped
      ensures Valid() && Coherent() && !clipped
    {
      clipped := false;
    }

    /** guac_protocol_send_copy with GUAC_COMP_OVER, or guac_protocol_send_transfer: draws onto
        this layer out of the image that the client has of the source layer. */
    ghost method SendBlit(rect: Rect, source: Grid<Pixel>, sx: int, sy: int, paint: Paint)
      requires IsGrid(remote, height, width) && Fits(rect, source, sx, sy, height, width)
      modifies this`remote
      ensures Blitted(paint, old(remote), remote, height, width, rect, source, sx, sy)
    {
      var was := remote;
      remote := seq(height, y requires 0 <= y < height => seq(width, x requires 0 <= x < width =>
        if rect.Has(x, y) then paint(source[sy + y - rect.y][sx + x - rect.x], was[y][x]) else was[y][x]));
    }

    /** The immediate part of guac_common_surface_copy and guac_common_surface_transfer: flushes
        both surfaces, so that the client shows image `shown`, and sends the instruction. */
    method BlitNow(rect: Rect, src: Surface, sx: int, sy: int, ghost paint: Paint, ghost was: Grid<Pixel>)
      returns (ghost shown: Grid<Pixel>)
      requires Valid() && IsGrid(was, height, width) && CoherentWith(was)
      requires if src == this then was == Pixels()
               else src.Valid() && src.Coherent() && src.queue != queue && src.buffer != buffer
      requires Fits(rect, src.Pixels(), sx, sy, height, width)
      modifies this`dirty, this`dirtyRect, this`queueLength, this`realized, this`remote, this`sent, queue
      modifies src`dirty, src`dirtyRect, src`queueLength, src`realized, src`remote, src`sent, src.queue
      ensures Valid() && Quiet() && SentBefore(was, Pixels(), shown, height, width, FlushedSince(old(|sent|)))
      ensures Blitted(paint, shown, remote, height, width, rect, src.Pixels(), sx, sy)
      ensures old(PendingPoints()) <= FlushedSince(old(|sent|))
      ensures NeverCombines(policy) ==> FlushedSince(old(|sent|)) == old(PendingPoints())
      ensures old(Quiet()) ==> sent == old(sent)
      ensures src != this ==> src.Valid() && src.Coherent()
    {
      ghost var n := |sent|;
      FlushAround(was);
      ghost var flushed := FlushedSince(n);
      label flushed:
      src.Flush();
      assert remote == old@flushed(remote) && sent == old@flushed(sent);
      assert FlushedSince(n) == flushed;
      shown := remote;
      SendBlit(rect, src.remote, sx, sy, paint);
      realized := true;
    }

    /** Once nothing is pending, the client has to show the local image. */
    lemma QuietCoherentIff()
      requires Valid() && Quiet()
      ensures Coherent() <==> remote == Pixels()
    {
      if Coherent() {
        forall p ensures !Differ(remote, Pixels(), p) { }
        SameGrid(remote, Pixels(), height, width);
      }
    }

    /** guac_common_surface_copy and guac_common_surface_transfer between different surfaces, once
        clipped: the local image is updated first, and then the instruction is sent for rectangle `inner`, unless
        that is combined with other updates. */
    method BlitAcross(src: Surface, sx: int, sy: int, rect: Rect, how: Blit, ghost paint: Paint, ghost local: Paint,
                      ghost was: Grid<Pixel>, ghost want: Grid<Pixel>, ghost from: Grid<Pixel>, ghost n: int,
                      ghost pending: set<Point>)
      returns (ghost atOnce: bool, ghost inner: Rect)
      requires Valid() && Coherent() && src.Valid() && src.Coherent() && was == Pixels() && from == src.Pixels()
      requires n == |sent| && pending == PendingPoints() && src != this && src.queue != queue && src.buffer != buffer
      requires !rect.Empty() && rect.Inside(Bounds())
      requires 0 <= sx && sx + rect.width <= src.width && 0 <= sy && sy + rect.height <= src.height
      requires Inked(was, want, height, width, from, sx, sy, rect, Combine(LocalOp(how)))
      requires Blitted(local, was, want, height, width, rect, from, sx, sy)
      modifies this`dirty, this`dirtyRect, this`queueLength, this`realized, this`remote, this`sent, queue, buffer
      modifies src`dirty, src`dirtyRect, src`queueLength, src`realized, src`remote, src`sent, src.queue
      ensures Valid() && src.Valid() && src.Coherent() && Pixels() == want
      ensures IsLeft(inner, was, want, rect) && (atOnce ==> !inner.Empty())
      ensures NeverCombines(policy) && !inner.Empty() ==> atOnce
      ensures FlushedAsDue(atOnce, old(Quiet()), FlushedSince(n), pending)
      ensures BlitOutcome(paint, local, atOnce, Coherent(), was, height, width, from, sx, sy, rect, inner,
                          FlushedSince(n))
    {
      var sx', sy', r := TransferTo(src, sx, sy, how, rect, was, want, from);
      inner := r;
      atOnce := PublishBlit(src, sx', sy', r, paint, local, was, sx, sy, rect, from, n, pending);
    }

    /** What is flushed before an instruction is sent, if it is: all that was pending, and nothing else if updates are
        not combined. */
    ghost predicate FlushedAsDue(atOnce: bool, quiet: bool, flushed: set<Point>, pending: set<Point>) {
      && (quiet || !atOnce ==> flushed == {})
      && (atOnce ==> pending <= flushed && (NeverCombines(policy) ==> flushed == pending))
    }

    /** Transfers pixels, which makes of image `was` the image `want`. */
    method TransferTo(src: Surface, sx: int, sy: int, how: Blit, rect: Rect, ghost was: Grid<Pixel>,
                      ghost want: Grid<Pixel>, ghost from: Grid<Pixel>)
      returns (sx': int, sy': int, r: Rect)
      requires Sized() && src.Sized() && (src != this ==> src.buffer != buffer)
      requires !rect.Empty() && rect.Inside(Bounds()) && was == Pixels() && from == src.Pixels()
      requires 0 <= sx && sx + rect.width <= src.width && 0 <= sy && sy + rect.height <= src.height
      requires Inked(was, want, height, width, from, sx, sy, rect, Combine(LocalOp(how)))
      modifies buffer
      ensures Pixels() == want && IsLeft(r, was, want, rect)
      ensures sx' == sx + r.x - rect.x && sy' == sy + r.y - rect.y
    {
      sx', sy', r := Transfer(src, sx, sy, LocalOp(how), rect);
      InkedOnce(was, want, Pixels(), height, width, from, sx, sy, rect, Combine(LocalOp(how)));
    }

    /** The rest of BlitAcross, once the rectangle is restricted to the changed pixels of `rect`. */
    method PublishBlit(src: Surface, sx': int, sy': int, r: Rect, ghost paint: Paint, ghost local: Paint,
                       ghost was: Grid<Pixel>, ghost sx: int, ghost sy: int, ghost rect: Rect,
                       ghost from: Grid<Pixel>, ghost n: int, ghost pending: set<Point>)
      returns (ghost atOnce: bool)
      requires Valid() && IsGrid(was, height, width) && CoherentWith(was) && src.Valid() && src.Coherent()
      requires src != this && src.queue != queue && src.buffer != buffer && from == src.Pixels()
      requires Tight(r, was, Pixels()) && r.Inside(rect) && n == |sent| && pending == PendingPoints()
      requires Blitted(local, was, Pixels(), height, width, rect, from, sx, sy)
      requires sx' == sx + r.x - rect.x && sy' == sy + r.y - rect.y
      modifies this`dirty, this`dirtyRect, this`queueLength, this`realized, this`remote, this`sent, queue
      modifies src`dirty, src`dirtyRect, src`queueLength, src`realized, src`remote, src`sent, src.queue
      ensures Valid() && src.Valid() && src.Coherent()
      ensures (atOnce ==> !r.Empty()) && (NeverCombines(policy) && !r.Empty() ==> atOnce)
      ensures FlushedAsDue(atOnce, old(Quiet()), FlushedSince(n), pending)
      ensures BlitOutcome(paint, local, atOnce, Coherent(), was, height, width, from, sx, sy, rect, r,
                          FlushedSince(n))
    {
      atOnce := false;
      if r.width <= 0 || r.height <= 0 {
        assert was == Pixels();
      } else if policy(realized, dirty, dirtyRect, r, true) {
        CombinesOnce(policy, realized, dirty, dirtyRect, r, true);
        MarkUpdate(r, was);
      } else {
        atOnce := true;
        BlitAtOnce(src, sx', sy', r, paint, local, was, sx, sy, rect, from, n, pending);
      }
    }

    /** Flushes both surfaces and sends the instruction for rectangle r. */
    method BlitAtOnce(src: Surface, sx': int, sy': int, r: Rect, ghost paint: Paint, ghost local: Paint,
                      ghost was: Grid<Pixel>, ghost sx: int, ghost sy: int, ghost rect: Rect,
                      ghost from: Grid<Pixel>, ghost n: int, ghost pending: set<Point>)
      requires Valid() && IsGrid(was, height, width) && CoherentWith(was) && src.Valid() && src.Coherent()
      requires src != this && src.queue != queue && src.buffer != buffer && from == src.Pixels()
      requires Tight(r, was, Pixels()) && r.Inside(rect) && n == |sent| && pending == PendingPoints()
      requires Blitted(local, was, Pixels(), height, width, rect, from, sx, sy)
      requires sx' == sx + r.x - rect.x && sy' == sy + r.y - rect.y && !r.Empty()
      modifies this`dirty, this`dirtyRect, this`queueLength, this`realized, this`remote, this`sent, queue
      modifies src`dirty, src`dirtyRect, src`queueLength, src`realized, src`remote, src`sent, src.queue
      ensures Valid() && src.Valid() && src.Coherent() && FlushedAsDue(true, old(Quiet()), FlushedSince(n), pending)
      ensures BlitOutcome(paint, local, true, Coherent(), was, height, width, from, sx, sy, rect, r, FlushedSince(n))
    {
      ghost var now := Pixels();
      ghost var shown := BlitNow(r, src, sx', sy', paint, was);
      ghost var flushed := FlushedSince(n);
      QuietCoherentIff();
      UnchangedOutside(was, now, height, width, r);
      BlitShowsWithinIff(paint, local, was, now, shown, remote, height, width, from, sx, sy, rect, sx', sy', r,
                         flushed);
    }

    lemma UnchangedOutside(was: Grid<Pixel>, now: Grid<Pixel>, h: nat, w: nat, r: Rect)
      requires IsGrid(was, h, w) && IsGrid(now, h, w) && Tight(r, was, now)
      ensures forall x, y {:trigger now[y][x]} :: 0 <= x < w && 0 <= y < h && !r.Has(x, y) ==> now[y][x] == was[y][x]
    {
      forall x, y | 0 <= x < w && 0 <= y < h && !r.Has(x, y)
        ensures now[y][x] == was[y][x]
      {
        assert !Differ(was, now, Point(x, y));
      }
    }

    /** guac_common_surface_copy and guac_common_surface_transfer within one surface, once clipped: the local
        image is updated last. The client shows it unless the instruction is sent at once and is not right. */
    method BlitWithin(sx: int, sy: int, rect: Rect, how: Blit)
      requires Valid() && Coherent() && !rect.Empty() && rect.Inside(Bounds())
      requires 0 <= sx && sx + rect.width <= width && 0 <= sy && sy + rect.height <= height
      modifies this`dirty, this`dirtyRect, this`queueLength, this`realized, this`remote, this`sent, queue, buffer
      ensures Valid()
      ensures Inked(old(Pixels()), Pixels(), height, width, old(Pixels()), sx, sy, rect, Combine(LocalOp(how)))
      ensures Coherent()
         <==> old(policy(realized, dirty, dirtyRect, rect, true))
              || BlitRight(RemotePaint(mix, how), LocalPaint(how), true, old(Pixels()), height, width, old(Pixels()),
                           sx, sy, rect)
    {
      ghost var was := Pixels();
      ghost var want := InkedExists(was, height, width, was, sx, sy, rect, Combine(LocalOp(how)));
      ghost var right := BlitRight(RemotePaint(mix, how), LocalPaint(how), true, was, height, width, was, sx, sy, rect);
      AnnounceBlit(sx, sy, rect, how, want, right);
      ghost var coherent := CoherentWith(want);
      var sx', sy', r := TransferTo(this, sx, sy, how, rect, was, want, was);
      assert Coherent() <==> coherent;
    }

    /** The first part of BlitWithin: whether the surface is then coherent with the image `want` that
        the local image is to become. */
    method AnnounceBlit(sx: int, sy: int, rect: Rect, how: Blit, ghost want: Grid<Pixel>, ghost right: bool)
      requires Valid() && Coherent() && !rect.Empty() && Fits(rect, Pixels(), sx, sy, height, width)
      requires Inked(Pixels(), want, height, width, Pixels(), sx, sy, rect, Combine(LocalOp(how)))
      requires right <==> BlitRight(RemotePaint(mix, how), LocalPaint(how), true, Pixels(), height, width, Pixels(), sx,
                                    sy, rect)
      modifies this`dirty, this`dirtyRect, this`queueLength, this`realized, this`remote, this`sent, queue
      ensures Valid()
      ensures CoherentWith(want) <==> old(policy(realized, dirty, dirtyRect, rect, true)) || right
    {
      ghost var was := Pixels();
      InkedWithin(was, want, height, width, was, sx, sy, rect, Combine(LocalOp(how)));
      if policy(realized, dirty, dirtyRect, rect, true) {
        MarkUpdate(rect, was);
        assert forall p :: Differ(was, want, p) ==> Pending(p.x, p.y);
      } else {
        AnnounceAtOnce(sx, sy, rect, how, want, right);
      }
    }

    method AnnounceAtOnce(sx: int, sy: int, rect: Rect, how: Blit, ghost want: Grid<Pixel>, ghost right: bool)
      requires Valid() && Coherent() && !rect.Empty() && Fits(rect, Pixels(), sx, sy, height, width)
      requires Inked(Pixels(), want, height, width, Pixels(), sx, sy, rect, Combine(LocalOp(how)))
      requires right <==> BlitRight(RemotePaint(mix, how), LocalPaint(how), true, Pixels(), height, width, Pixels(), sx,
                                    sy, rect)
      modifies this`dirty, this`dirtyRect, this`queueLength, this`realized, this`remote, this`sent, queue
      ensures Valid()
      ensures CoherentWith(want) <==> right
    {
      ghost var was, paint := Pixels(), RemotePaint(mix, how);
      ghost var shown := BlitNow(rect, this, sx, sy, paint, was);
      SameGrid(shown, was, height, width);
      InkedIsBlitted(how, was, want, height, width, was, sx, sy, rect);
      BlitShowsIff(paint, LocalPaint(how), was, want, remote, height, width, was, sx, sy, rect);
      QuietCoherentWith(want);
    }

    lemma QuietCoherentWith(want: Grid<Pixel>)
      requires Valid() && Quiet() && IsGrid(want, height, width)
      ensures CoherentWith(want) <==> remote == want
    {
      if CoherentWith(want) {
        forall p ensures !Differ(remote, want, p) { }
        SameGrid(remote, want, height, width);
      }
    }

    /** The source position and destination rectangle left by clipping the source rectangle to its
        surface and then the destination rectangle to this one. */
    function BlitArea(src: Surface, sx: int, sy: int, w: int, h: int, dx: int, dy: int): (a: Area)
      requires Valid()
      reads this
      ensures !a.rect.Empty() ==> a.rect.Inside(Bounds())
      ensures !a.rect.Empty() ==> 0 <= a.sx && a.sx + a.rect.width <= src.width
      ensures !a.rect.Empty() ==> 0 <= a.sy && a.sy + a.rect.height <= src.height
    {
      var srect := Constrain(Rect(sx, sy, w, h), src.Bounds());
      if srect.width <= 0 || srect.height <= 0 then Area(0, 0, Rect(0, 0, 0, 0))
      else
        var unclipped := Rect(dx + srect.x - sx, dy + srect.y - sy, srect.width, srect.height);
        var drect := ClipTo(unclipped);
        Area(srect.x + drect.x - unclipped.x, srect.y + drect.y - unclipped.y, drect)
    }

    /** guac_common_surface_copy and guac_common_surface_transfer onto this surface; the functions
        differ only in the transfer function and in the instruction they send. */
    method BlitFrom(src: Surface, sx: int, sy: int, w: int, h: int, how: Blit, dx: int, dy: int)
      returns (ghost atOnce: bool, ghost inner: Rect)
      requires Valid() && Coherent() && src.Valid() && src.Coherent()
      requires src != this ==> src.queue != queue && src.buffer != buffer
      modifies this`dirty, this`dirtyRect, this`queueLength, this`realized, this`remote, this`sent, queue, buffer
      modifies src`dirty, src`dirtyRect, src`queueLength, src`realized, src`remote, src`sent, src.queue
      ensures Valid() && src.Valid() && (src != this ==> src.Coherent())
      ensures var a := old(BlitArea(src, sx, sy, w, h, dx, dy));
              if a.rect.Empty() then Pixels() == old(Pixels())
              else Inked(old(Pixels()), Pixels(), height, width, old(src.Pixels()), a.sx, a.sy, a.rect,
                         Combine(LocalOp(how)))
      ensures var a := old(BlitArea(src, sx, sy, w, h, dx, dy));
              a.rect.Empty() || old(Faithful(how, src == this || Quiet(), src.Pixels(), a.sx, a.sy, a.rect)) ==>
                Coherent()
      ensures var a := old(BlitArea(src, sx, sy, w, h, dx, dy));
              !a.rect.Empty() && src != this ==>
                && IsLeft(inner, old(Pixels()), Pixels(), a.rect) && (atOnce ==> !inner.Empty())
                && (NeverCombines(policy) && !inner.Empty() ==> atOnce)
                && FlushedAsDue(atOnce, old(Quiet()), FlushedSince(old(|sent|)), old(PendingPoints()))
                && BlitOutcome(RemotePaint(mix, how), LocalPaint(how), atOnce, Coherent(), old(Pixels()), height, width,
                               src.Pixels(), a.sx, a.sy, a.rect, inner, FlushedSince(old(|sent|)))
    {
      var a := BlitArea(src, sx, sy, w, h, dx, dy);
      atOnce, inner := false, a.rect;
      if a.rect.Empty() {
        return;
      }
      ghost var was, paint, local, once := Pixels(), RemotePaint(mix, how), LocalPaint(how), src == this || Quiet();
      ghost var faithful, from, n := Faithful(how, once, src.Pixels(), a.sx, a.sy, a.rect), src.Pixels(), |sent|;
      if faithful {
        FaithfulIsRight(mix, how, once, was, height, width, from, a.sx, a.sy, a.rect);
      }
      if src == this {
        BlitWithin(a.sx, a.sy, a.rect, how);
      } else {
        ghost var want := InkedExists(was, height, width, from, a.sx, a.sy, a.rect, Combine(LocalOp(how)));
        InkedIsBlitted(how, was, want, height, width, from, a.sx, a.sy, a.rect);
        atOnce, inner := BlitAcross(src, a.sx, a.sy, a.rect, how, paint, local, was, want, from, n, PendingPoints());
        if faithful {
          RightEverywhere(paint, local, once, was, height, width, from, a.sx, a.sy, a.rect, inner, FlushedSince(n));
        }
      }
    }

    /** A transfer that fails: an update that is pending on this surface is sent with the outcome already in it,
        and the instruction that follows spoils that. */
    method TransferOntoPending(src: Surface, sx: int, sy: int, rect: Rect, op: TransferFunction, ghost x: int,
                               ghost y: int)
      requires Valid() && Coherent() && src.Valid() && src.Coherent()
      requires src != this && src.queue != queue && src.buffer != buffer && rect.Inside(Bounds())
      requires 0 <= sx && sx + rect.width <= src.width && 0 <= sy && sy + rect.height <= src.height
      requires NeverCombines(policy) && rect.Has(x, y) && Pending(x, y)
      requires var s, d := src.Pixels()[sy + y - rect.y][sx + x - rect.x], Pixels()[y][x];
        TransferColor(op, s, TransferColor(op, s, d)) != TransferColor(op, s, d)
      modifies this`dirty, this`dirtyRect, this`queueLength, this`realized, this`remote, this`sent, queue, buffer
      modifies src`dirty, src`dirtyRect, src`queueLength, src`realized, src`remote, src`sent, src.queue
      ensures Valid() && !Coherent()
    {
      TransferIsRight(mix, op, src.Pixels()[sy + y - rect.y][sx + x - rect.x], Pixels()[y][x]);
      BlitOntoPending(src, sx, sy, rect, TransferBy(op), x, y);
    }

    method BlitOntoPending(src: Surface, sx: int, sy: int, rect: Rect, how: Blit, ghost x: int, ghost y: int)
      requires Valid() && Coherent() && src.Valid() && src.Coherent()
      requires src != this && src.queue != queue && src.buffer != buffer && rect.Inside(Bounds())
      requires 0 <= sx && sx + rect.width <= src.width && 0 <= sy && sy + rect.height <= src.height
      requires NeverCombines(policy) && rect.Has(x, y) && Pending(x, y) && how.TransferBy?
      requires !SecondRight(RemotePaint(mix, how), LocalPaint(how), src.Pixels()[sy + y - rect.y][sx + x - rect.x],
                            Pixels()[y][x])
      modifies this`dirty, this`dirtyRect, this`queueLength, this`realized, this`remote, this`sent, queue, buffer
      modifies src`dirty, src`dirtyRect, src`queueLength, src`realized, src`remote, src`sent, src.queue
      ensures Valid() && !Coherent()
    {
      ghost var n, was, from := |sent|, Pixels(), src.Pixels();
      assert Point(x, y) in PendingPoints();
      ghost var want := InkedExists(was, height, width, from, sx, sy, rect, Combine(LocalOp(how)));
      InkedIsBlitted(how, was, want, height, width, from, sx, sy, rect);
      TransfersAlike(mix, how.op);
      ghost var paint, local := RemotePaint(mix, how), LocalPaint(how);
      ghost var atOnce, inner := BlitAcross(src, sx, sy, rect, how, paint, local, was, want, from, n, PendingPoints());
      SpoiledPixel(paint, local, was, want, height, width, from, sx, sy, rect, x, y, inner,
                   FlushedSince(n));
    }
  }

  lemma CombinesOnce(policy: CombinePolicy, realized: bool, dirty: bool, dirtyRect: Rect, rect: Rect, plain: bool)
    ensures policy(realized, dirty, dirtyRect, rect, plain) ==> !NeverCombines(policy)
  {
  }

  /** Every update is published on its own. */
  ghost predicate NeverCombines(policy: CombinePolicy) {
    forall realized, dirty, dirtyRect, rect, plain :: !policy(realized, dirty, dirtyRect, rect, plain)
  }

  datatype Area = Area(sx: int, sy: int, rect: Rect)
}
