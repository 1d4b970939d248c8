/** What a Guacamole client does with the instructions that src/common/surface.c sends it. */
module Client {
  import opened Grids
  import opened Rects
  import opened Pixels
  import opened Boxes

  /** How the client blends a translucent pixel over a visible one; its rounding is not known. */
  type Blend = (Pixel, Pixel) -> Pixel

  /** GUAC_COMP_OVER: an opaque source, or a source over nothing, replaces the destination. */
  function Over(mix: Blend, dst: Pixel, src: Pixel): Pixel {
    if Opaque(src) || dst == 0 then src else mix(dst, src)
  }

  lemma OpaqueUnchanged(p: Pixel)
    requires Opaque(p)
    ensures p | 0xFF000000 == p
  {
  }

  /** "rect" and "cfill" with GUAC_COMP_ROUT: erases the rectangle. */
  ghost predicate Erased(was: Grid<Pixel>, now: Grid<Pixel>, h: nat, w: nat, rect: Rect) {
    && IsGrid(was, h, w) && IsGrid(now, h, w)
    && forall x, y :: 0 <= x < w && 0 <= y < h ==> now[y][x] == if rect.Has(x, y) then 0 else was[y][x]
  }

  /** "img" with GUAC_COMP_OVER: draws the pixels of `data` in the rectangle, as RGB24 or ARGB32. */
  ghost predicate Imaged(mix: Blend, was: Grid<Pixel>, now: Grid<Pixel>, h: nat, w: nat, rect: Rect,
                         data: Grid<Pixel>, rgb: bool) {
    && IsGrid(was, h, w) && IsGrid(now, h, w) && IsGrid(data, h, w)
    && forall x, y :: 0 <= x < w && 0 <= y < h ==>
         now[y][x] == if rect.Has(x, y) then Over(mix, was[y][x], if rgb then data[y][x] | 0xFF000000 else data[y][x])
                      else was[y][x]
  }

  /** "rect" and "cfill" with GUAC_COMP_OVER: draws a plain colour. */
  ghost predicate Filled(mix: Blend, was: Grid<Pixel>, now: Grid<Pixel>, h: nat, w: nat, rect: Rect, color: Pixel) {
    && IsGrid(was, h, w) && IsGrid(now, h, w)
    && forall x, y :: 0 <= x < w && 0 <= y < h ==>
         now[y][x] == if rect.Has(x, y) then Over(mix, was[y][x], color) else was[y][x]
  }

  /** The instruction that moves pixels between layers: "copy" with GUAC_COMP_OVER, or "transfer". */
  datatype Blit = Copy | TransferBy(op: TransferFunction)

  /** The colour that the instruction leaves on the client. */
  function BlitColor(mix: Blend, how: Blit, src: Pixel, dst: Pixel): Pixel {
    match how
    case Copy => Over(mix, dst, src)
    case TransferBy(op) => TransferColor(op, src, dst)
  }

  /** The transfer function that is applied to the local image meanwhile. */
  function LocalOp(how: Blit): TransferFunction {
    match how
    case Copy => Src
    case TransferBy(op) => op
  }

  /** Source coordinates for every pixel of `rect`. */
  ghost predicate Fits(rect: Rect, from: Grid<Pixel>, sx: int, sy: int, h: nat, w: nat) {
    && rect.Inside(Rect(0, 0, w, h)) && 0 <= sx && 0 <= sy && sy + rect.height <= |from|
    && forall y :: 0 <= y < |from| ==> sx + rect.width <= |from[y]|
  }

  /** What is done to a pixel, given those of the source and the destination. */
  type Paint = (Pixel, Pixel) -> Pixel

  function RemotePaint(mix: Blend, how: Blit): Paint {
    (src, dst) => BlitColor(mix, how, src, dst)
  }

  function LocalPaint(how: Blit): Paint {
    (src, dst) => TransferColor(LocalOp(how), src, dst)
  }

  ghost predicate Blitted(paint: Paint, was: Grid<Pixel>, now: Grid<Pixel>, h: nat, w: nat, rect: Rect,
                          from: Grid<Pixel>, sx: int, sy: int) {
    && IsGrid(was, h, w) && IsGrid(now, h, w) && Fits(rect, from, sx, sy, h, w)
    && forall x, y {:trigger now[y][x]} :: 0 <= x < w && 0 <= y < h ==>
         now[y][x] == if rect.Has(x, y) then paint(from[sy + y - rect.y][sx + x - rect.x], was[y][x]) else was[y][x]
  }

  lemma InkedIsBlitted(how: Blit, was: Grid<Pixel>, want: Grid<Pixel>, h: nat, w: nat, from: Grid<Pixel>, sx: int,
                       sy: int, rect: Rect)
    requires Inked(was, want, h, w, from, sx, sy, rect, Combine(LocalOp(how))) && Fits(rect, from, sx, sy, h, w)
    ensures Blitted(LocalPaint(how), was, want, h, w, rect, from, sx, sy)
  {
    forall x, y | 0 <= x < w && 0 <= y < h
      ensures want[y][x] == if rect.Has(x, y) then LocalPaint(how)(from[sy + y - rect.y][sx + x - rect.x], was[y][x])
                            else was[y][x]
    {
      InkedColor(how, was, want, h, w, from, sx, sy, rect, x, y);
    }
  }

  lemma InkedColor(how: Blit, was: Grid<Pixel>, want: Grid<Pixel>, h: nat, w: nat, from: Grid<Pixel>, sx: int,
                   sy: int, rect: Rect, x: int, y: int)
    requires Inked(was, want, h, w, from, sx, sy, rect, Combine(LocalOp(how))) && Fits(rect, from, sx, sy, h, w)
    requires 0 <= x < w && 0 <= y < h
    ensures want[y][x] == if rect.Has(x, y) then LocalPaint(how)(from[sy + y - rect.y][sx + x - rect.x], was[y][x])
                          else was[y][x]
  {
    assert rect.Has(x, y) ==> want[y][x] == InkColor(Combine(LocalOp(how)), from[sy + y - rect.y][sx + x - rect.x],
                                                     was[y][x]);
  }

  /** Applying the function once more changes nothing. */
  ghost predicate Idempotent(op: TransferFunction) {
    forall s, d :: TransferColor(op, s, TransferColor(op, s, d)) == TransferColor(op, s, d)
  }

  predicate Repeatable(op: TransferFunction) {
    op in {Black, White, Src, Dest, Nsrc, And, Or, NsrcAnd, NsrcOr}
  }

  lemma MaskTwice(d: Pixel, m: Pixel)
    ensures (d & m) & m == d & m && (d | m) | m == d | m
  {
  }

  lemma AndRepeats(s: Pixel, d: Pixel)
    ensures TransferColor(And, s, TransferColor(And, s, d)) == TransferColor(And, s, d)
  {
    var m := 0xFF000000 | s;
    assert TransferColor(And, s, d) == d & m;
    assert TransferColor(And, s, d & m) == (d & m) & m;
    MaskTwice(d, m);
  }

  lemma NsrcAndRepeats(s: Pixel, d: Pixel)
    ensures TransferColor(NsrcAnd, s, TransferColor(NsrcAnd, s, d)) == TransferColor(NsrcAnd, s, d)
  {
    var m := 0xFF000000 | (s ^ 0x00FFFFFF);
    assert TransferColor(NsrcAnd, s, d) == d & m;
    assert TransferColor(NsrcAnd, s, d & m) == (d & m) & m;
    MaskTwice(d, m);
  }

  lemma OrRepeats(s: Pixel, d: Pixel)
    ensures TransferColor(Or, s, TransferColor(Or, s, d)) == TransferColor(Or, s, d)
  {
    var m := 0x00FFFFFF & s;
    assert TransferColor(Or, s, d) == d | m;
    assert TransferColor(Or, s, d | m) == (d | m) | m;
    MaskTwice(d, m);
  }

  lemma NsrcOrRepeats(s: Pixel, d: Pixel)
    ensures TransferColor(NsrcOr, s, TransferColor(NsrcOr, s, d)) == TransferColor(NsrcOr, s, d)
  {
    var m := 0x00FFFFFF & (s ^ 0x00FFFFFF);
    assert TransferColor(NsrcOr, s, d) == d | m;
    assert TransferColor(NsrcOr, s, d | m) == (d | m) | m;
    MaskTwice(d, m);
  }

  lemma RepeatableAt(op: TransferFunction, s: Pixel, d: Pixel)
    requires Repeatable(op)
    ensures TransferColor(op, s, TransferColor(op, s, d)) == TransferColor(op, s, d)
  {
    match op
    case Black | White | Src | Dest | Nsrc =>
    case And => AndRepeats(s, d);
    case NsrcAnd => NsrcAndRepeats(s, d);
    case Or => OrRepeats(s, d);
    case NsrcOr => NsrcOrRepeats(s, d);
  }

  /** A source and a destination pixel for which a second application spoils the first. */
  lemma NotRepeatable(op: TransferFunction) returns (s: Pixel, d: Pixel)
    requires !Repeatable(op)
    ensures TransferColor(op, s, TransferColor(op, s, d)) != TransferColor(op, s, d)
  {
    s := if op in {Nand, NsrcNor} then 0x00FFFFFF else if op == Xor then 1 else 0;
    d := 0;
  }

  /** Exactly nine of the sixteen transfer functions may be applied twice. */
  lemma IdempotentOps(op: TransferFunction)
    ensures Idempotent(op) <==> Repeatable(op)
  {
    if Repeatable(op) {
      forall s, d ensures TransferColor(op, s, TransferColor(op, s, d)) == TransferColor(op, s, d) {
        RepeatableAt(op, s, d);
      }
    } else {
      var s, d := NotRepeatable(op);
    }
  }

  /** The source pixels for `rect` are all opaque. */
  ghost predicate AllOpaque(from: Grid<Pixel>, sx: int, sy: int, rect: Rect) {
    forall x, y :: rect.Has(x, y) && 0 <= sy + y - rect.y < |from| && 0 <= sx + x - rect.x < |from[sy + y - rect.y]| ==>
      Opaque(from[sy + y - rect.y][sx + x - rect.x])
  }

  /** The instruction does to a pixel what is done locally, if the client shows the pixel as it was ... */
  predicate FirstRight(remote: Paint, local: Paint, src: Pixel, d: Pixel) {
    remote(src, d) == local(src, d)
  }

  /** ... and leaves it alone, if the client has been sent the outcome already. */
  predicate SecondRight(remote: Paint, local: Paint, src: Pixel, d: Pixel) {
    remote(src, local(src, d)) == local(src, d)
  }

  /** A blend that does not make holes into what is opaque. */
  ghost predicate KeepsOpaque(mix: Blend) {
    forall d, s :: Opaque(d) ==> Opaque(mix(d, s))
  }

  /** On an opaque pixel, a copy is right exactly if its source is opaque as well. */
  lemma CopyRightIff(mix: Blend, src: Pixel, shown: Pixel)
    requires KeepsOpaque(mix) && Opaque(shown)
    ensures FirstRight(RemotePaint(mix, Copy), LocalPaint(Copy), src, shown) <==> Opaque(src)
  {
    if !Opaque(src) {
      OpaqueIsSeen(shown);
      assert BlitColor(mix, Copy, src, shown) == mix(shown, src);
    }
  }

  lemma OpaqueIsSeen(p: Pixel)
    requires Opaque(p)
    ensures p != 0
  {
  }

  /** A copy of an opaque pixel is right whatever the client shows, and may be repeated. */
  lemma OpaqueCopyIsRight(mix: Blend, src: Pixel, d: Pixel)
    requires Opaque(src)
    ensures FirstRight(RemotePaint(mix, Copy), LocalPaint(Copy), src, d)
    ensures SecondRight(RemotePaint(mix, Copy), LocalPaint(Copy), src, d)
  {
  }

  /** Whatever the client shows, a transfer is right once ... */
  lemma TransferIsRight(mix: Blend, op: TransferFunction, src: Pixel, d: Pixel)
    ensures FirstRight(RemotePaint(mix, TransferBy(op)), LocalPaint(TransferBy(op)), src, d)
    ensures SecondRight(RemotePaint(mix, TransferBy(op)), LocalPaint(TransferBy(op)), src, d)
       <==> TransferColor(op, src, TransferColor(op, src, d)) == TransferColor(op, src, d)
  {
  }

  /** ... and twice exactly if its function is repeatable. */
  lemma TransferRightIff(mix: Blend, op: TransferFunction)
    ensures (forall src, d :: SecondRight(RemotePaint(mix, TransferBy(op)), LocalPaint(TransferBy(op)), src, d))
       <==> Repeatable(op)
  {
    if Repeatable(op) {
      forall src, d ensures SecondRight(RemotePaint(mix, TransferBy(op)), LocalPaint(TransferBy(op)), src, d) {
        RepeatableAt(op, src, d);
        TransferIsRight(mix, op, src, d);
      }
    } else {
      var src, d := NotRepeatable(op);
      TransferIsRight(mix, op, src, d);
    }
  }

  /** A copy of opaque pixels within one layer or between layers, a transfer within one layer, and one
      between layers if its function is repeatable. */
  ghost predicate Faithful(how: Blit, once: bool, from: Grid<Pixel>, sx: int, sy: int, rect: Rect) {
    match how
    case Copy => AllOpaque(from, sx, sy, rect)
    case TransferBy(op) => once || Repeatable(op)
  }

  /** The instruction is right at every pixel of `rect`; unless the client shows all of them as they were
      (`once`), then also where it has been sent the outcome already. */
  ghost predicate BlitRight(remote: Paint, local: Paint, once: bool, was: Grid<Pixel>, h: nat, w: nat,
                            from: Grid<Pixel>, sx: int, sy: int, rect: Rect)
    requires IsGrid(was, h, w) && Fits(rect, from, sx, sy, h, w)
  {
    forall x, y {:trigger was[y][x]} :: rect.Has(x, y) ==>
      && FirstRight(remote, local, from[sy + y - rect.y][sx + x - rect.x], was[y][x])
      && (once || SecondRight(remote, local, from[sy + y - rect.y][sx + x - rect.x], was[y][x]))
  }

  /** These are right whatever the client's blending does and whatever it shows. */
  lemma FaithfulIsRight(mix: Blend, how: Blit, once: bool, was: Grid<Pixel>, h: nat, w: nat, from: Grid<Pixel>,
                        sx: int, sy: int, rect: Rect)
    requires IsGrid(was, h, w) && Fits(rect, from, sx, sy, h, w) && Faithful(how, once, from, sx, sy, rect)
    ensures BlitRight(RemotePaint(mix, how), LocalPaint(how), once, was, h, w, from, sx, sy, rect)
  {
    forall x, y | rect.Has(x, y)
      ensures var src := from[sy + y - rect.y][sx + x - rect.x];
        && FirstRight(RemotePaint(mix, how), LocalPaint(how), src, was[y][x])
        && (once || SecondRight(RemotePaint(mix, how), LocalPaint(how), src, was[y][x]))
    {
      FaithfulAt(mix, how, once, from[sy + y - rect.y][sx + x - rect.x], was[y][x]);
    }
  }

  lemma FaithfulAt(mix: Blend, how: Blit, once: bool, src: Pixel, d: Pixel)
    requires if how.Copy? then Opaque(src) else once || Repeatable(how.op)
    ensures FirstRight(RemotePaint(mix, how), LocalPaint(how), src, d)
    ensures once || SecondRight(RemotePaint(mix, how), LocalPaint(how), src, d)
  {
    match how
    case Copy => OpaqueCopyIsRight(mix, src, d);
    case TransferBy(op) =>
      TransferIsRight(mix, op, src, d);
      if !once {
        RepeatableAt(op, src, d);
      }
  }

  /** The client shows the outcome at the points where that has been sent before the instruction. */
  ghost predicate SentBefore(was: Grid<Pixel>, want: Grid<Pixel>, shown: Grid<Pixel>, h: nat, w: nat,
                             flushed: set<Point>) {
    && IsGrid(was, h, w) && IsGrid(want, h, w) && IsGrid(shown, h, w)
    && forall x, y {:trigger shown[y][x]} :: 0 <= x < w && 0 <= y < h ==>
         shown[y][x] == if Point(x, y) in flushed then want[y][x] else was[y][x]
  }

  /** A blit for the rectangle `inner`, which holds all pixels of `rect` that have changed. */
  ghost predicate BlitSent(remote: Paint, local: Paint, was: Grid<Pixel>, want: Grid<Pixel>, shown: Grid<Pixel>,
                           after: Grid<Pixel>, h: nat, w: nat, from: Grid<Pixel>, sx: int, sy: int, rect: Rect,
                           sx': int, sy': int, inner: Rect, flushed: set<Point>) {
    && Blitted(local, was, want, h, w, rect, from, sx, sy)
    && inner.Inside(rect) && sx' == sx + inner.x - rect.x && sy' == sy + inner.y - rect.y
    && SentBefore(was, want, shown, h, w, flushed) && Blitted(remote, shown, after, h, w, inner, from, sx', sy')
    && forall x, y {:trigger want[y][x]} :: 0 <= x < w && 0 <= y < h && !inner.Has(x, y) ==> want[y][x] == was[y][x]
  }

  lemma PixelAfter(remote: Paint, local: Paint, was: Grid<Pixel>, want: Grid<Pixel>, shown: Grid<Pixel>,
                   after: Grid<Pixel>, h: nat, w: nat, from: Grid<Pixel>, sx: int, sy: int, rect: Rect, sx': int,
                   sy': int, inner: Rect, flushed: set<Point>, x: int, y: int)
    requires BlitSent(remote, local, was, want, shown, after, h, w, from, sx, sy, rect, sx', sy', inner, flushed)
    requires 0 <= x < w && 0 <= y < h
    ensures !inner.Has(x, y) ==> after[y][x] == want[y][x] == was[y][x]
    ensures rect.Has(x, y) ==> want[y][x] == local(from[sy + y - rect.y][sx + x - rect.x], was[y][x])
    ensures inner.Has(x, y) ==>
              && rect.Has(x, y)
              && after[y][x] == remote(from[sy + y - rect.y][sx + x - rect.x],
                                       if Point(x, y) in flushed then want[y][x] else was[y][x])
  {
    assert shown[y][x] == if Point(x, y) in flushed then want[y][x] else was[y][x];
    if inner.Has(x, y) {
      assert sy' + y - inner.y == sy + y - rect.y && sx' + x - inner.x == sx + x - rect.x;
    }
  }

  /** The instruction is right at every pixel of `inner`, the part of `rect` that it is sent for: where the client has
      been sent the outcome already, and where it shows the pixel as it was. */
  ghost predicate RightWithin(remote: Paint, local: Paint, was: Grid<Pixel>, h: nat, w: nat, from: Grid<Pixel>,
                              sx: int, sy: int, rect: Rect, inner: Rect, flushed: set<Point>)
    requires IsGrid(was, h, w) && Fits(rect, from, sx, sy, h, w)
  {
    forall x, y {:trigger was[y][x]} :: rect.Has(x, y) && inner.Has(x, y) ==>
      if Point(x, y) in flushed then SecondRight(remote, local, from[sy + y - rect.y][sx + x - rect.x], was[y][x])
      else FirstRight(remote, local, from[sy + y - rect.y][sx + x - rect.x], was[y][x])
  }

  /** Exactly when the client shows the outcome or is yet to be sent it (`coherent`): unless the instruction has been
      sent at once and is not right. */
  ghost predicate BlitOutcome(remote: Paint, local: Paint, atOnce: bool, coherent: bool, was: Grid<Pixel>, h: nat,
                              w: nat, from: Grid<Pixel>, sx: int, sy: int, rect: Rect, inner: Rect,
                              flushed: set<Point>)
    requires IsGrid(was, h, w) && Fits(rect, from, sx, sy, h, w)
  {
    coherent <==> !atOnce || RightWithin(remote, local, was, h, w, from, sx, sy, rect, inner, flushed)
  }

  /** Whatever the instruction, the client then shows the outcome exactly if it is right within its rectangle. */
  lemma BlitShowsWithinIff(remote: Paint, local: Paint, was: Grid<Pixel>, want: Grid<Pixel>, shown: Grid<Pixel>,
                           after: Grid<Pixel>, h: nat, w: nat, from: Grid<Pixel>, sx: int, sy: int, rect: Rect,
                           sx': int, sy': int, inner: Rect, flushed: set<Point>)
    requires BlitSent(remote, local, was, want, shown, after, h, w, from, sx, sy, rect, sx', sy', inner, flushed)
    ensures after == want <==> RightWithin(remote, local, was, h, w, from, sx, sy, rect, inner, flushed)
  {
    forall x, y | rect.Has(x, y) && inner.Has(x, y)
      ensures after[y][x] == want[y][x]
         <==> var src := from[sy + y - rect.y][sx + x - rect.x];
              if Point(x, y) in flushed then SecondRight(remote, local, src, was[y][x])
              else FirstRight(remote, local, src, was[y][x])
    {
      PixelAfter(remote, local, was, want, shown, after, h, w, from, sx, sy, rect, sx', sy', inner, flushed, x, y);
    }
    if RightWithin(remote, local, was, h, w, from, sx, sy, rect, inner, flushed) {
      forall p ensures !Differ(after, want, p) {
        if 0 <= p.x < w && 0 <= p.y < h {
          PixelAfter(remote, local, was, want, shown, after, h, w, from, sx, sy, rect, sx', sy', inner, flushed, p.x,
                     p.y);
        }
      }
      SameGrid(after, want, h, w);
    }
  }

  lemma RightEverywhere(remote: Paint, local: Paint, once: bool, was: Grid<Pixel>, h: nat, w: nat, from: Grid<Pixel>,
                        sx: int, sy: int, rect: Rect, inner: Rect, flushed: set<Point>)
    requires IsGrid(was, h, w) && Fits(rect, from, sx, sy, h, w) && (once ==> flushed == {})
    requires BlitRight(remote, local, once, was, h, w, from, sx, sy, rect)
    ensures RightWithin(remote, local, was, h, w, from, sx, sy, rect, inner, flushed)
  {
  }

  /** The client then shows the outcome, if the blit is right. */
  lemma RightBlitShows(remote: Paint, local: Paint, once: bool, was: Grid<Pixel>, want: Grid<Pixel>,
                       shown: Grid<Pixel>, after: Grid<Pixel>, h: nat, w: nat, from: Grid<Pixel>, sx: int, sy: int,
                       rect: Rect, sx': int, sy': int, inner: Rect, flushed: set<Point>)
    requires BlitSent(remote, local, was, want, shown, after, h, w, from, sx, sy, rect, sx', sy', inner, flushed)
    requires BlitRight(remote, local, once, was, h, w, from, sx, sy, rect) && (once ==> flushed == {})
    ensures after == want
  {
    RightEverywhere(remote, local, once, was, h, w, from, sx, sy, rect, inner, flushed);
    BlitShowsWithinIff(remote, local, was, want, shown, after, h, w, from, sx, sy, rect, sx', sy', inner, flushed);
  }

  /** No pixel that was sent before the instruction is spoiled by it. */
  ghost predicate NoneSpoiled(remote: Paint, local: Paint, was: Grid<Pixel>, h: nat, w: nat, from: Grid<Pixel>,
                              sx: int, sy: int, rect: Rect, flushed: set<Point>)
    requires IsGrid(was, h, w) && Fits(rect, from, sx, sy, h, w)
  {
    forall x, y {:trigger was[y][x]} :: rect.Has(x, y) && Point(x, y) in flushed ==>
      SecondRight(remote, local, from[sy + y - rect.y][sx + x - rect.x], was[y][x])
  }

  lemma AlikeAt(remote: Paint, local: Paint, from: Grid<Pixel>, x: int, y: int, d: Pixel)
    requires Alike(remote, local)
    ensures 0 <= y < |from| && 0 <= x < |from[y]| ==>
              FirstRight(remote, local, from[y][x], d) && FirstRight(remote, local, from[y][x], local(from[y][x], d))
  {
  }

  ghost predicate Alike(remote: Paint, local: Paint) {
    forall src, d :: remote(src, d) == local(src, d)
  }

  /** If the instruction does the same on the client as is done locally, as a transfer does, then it is right exactly
      if it spoils nothing: pixels that do not change cannot be spoiled. */
  lemma RightAlike(remote: Paint, local: Paint, was: Grid<Pixel>, want: Grid<Pixel>, h: nat, w: nat,
                   from: Grid<Pixel>, sx: int, sy: int, rect: Rect, inner: Rect, flushed: set<Point>)
    requires Blitted(local, was, want, h, w, rect, from, sx, sy) && Alike(remote, local)
    requires forall x, y {:trigger want[y][x]} :: 0 <= x < w && 0 <= y < h && !inner.Has(x, y) ==>
               want[y][x] == was[y][x]
    ensures RightWithin(remote, local, was, h, w, from, sx, sy, rect, inner, flushed)
       <==> NoneSpoiled(remote, local, was, h, w, from, sx, sy, rect, flushed)
  {
    forall x, y | rect.Has(x, y)
      ensures var src := from[sy + y - rect.y][sx + x - rect.x];
        && FirstRight(remote, local, src, was[y][x])
        && (!inner.Has(x, y) ==> SecondRight(remote, local, src, was[y][x]))
    {
      AlikeAt(remote, local, from, sx + x - rect.x, sy + y - rect.y, was[y][x]);
      assert want[y][x] == local(from[sy + y - rect.y][sx + x - rect.x], was[y][x]);
    }
  }

  /** ... and then the client shows the outcome exactly if the instruction spoils nothing. */
  lemma TransferShowsIff(remote: Paint, local: Paint, was: Grid<Pixel>, want: Grid<Pixel>, shown: Grid<Pixel>,
                         after: Grid<Pixel>, h: nat, w: nat, from: Grid<Pixel>, sx: int, sy: int, rect: Rect,
                         sx': int, sy': int, inner: Rect, flushed: set<Point>)
    requires BlitSent(remote, local, was, want, shown, after, h, w, from, sx, sy, rect, sx', sy', inner, flushed)
    requires Alike(remote, local)
    ensures after == want <==> NoneSpoiled(remote, local, was, h, w, from, sx, sy, rect, flushed)
  {
    BlitShowsWithinIff(remote, local, was, want, shown, after, h, w, from, sx, sy, rect, sx', sy', inner, flushed);
    RightAlike(remote, local, was, want, h, w, from, sx, sy, rect, inner, flushed);
  }

  lemma TransfersAlike(mix: Blend, op: TransferFunction)
    ensures Alike(RemotePaint(mix, TransferBy(op)), LocalPaint(TransferBy(op)))
  {
  }

  /** A pixel that the instruction spoils has been changed, and is enough to spoil the outcome. */
  lemma SpoiledPixel(remote: Paint, local: Paint, was: Grid<Pixel>, want: Grid<Pixel>, h: nat, w: nat,
                     from: Grid<Pixel>, sx: int, sy: int, rect: Rect, x: int, y: int, inner: Rect,
                     flushed: set<Point>)
    requires Blitted(local, was, want, h, w, rect, from, sx, sy) && Alike(remote, local) && rect.Has(x, y)
    requires IsLeft(inner, was, want, rect)
    requires !SecondRight(remote, local, from[sy + y - rect.y][sx + x - rect.x], was[y][x])
    ensures inner.Has(x, y)
    ensures Point(x, y) in flushed ==> !RightWithin(remote, local, was, h, w, from, sx, sy, rect, inner, flushed)
  {
    AlikeAt(remote, local, from, sx + x - rect.x, sy + y - rect.y, was[y][x]);
    assert want[y][x] == local(from[sy + y - rect.y][sx + x - rect.x], was[y][x]);
    assert Differ(was, want, Point(x, y));
  }

  /** A blit to a layer that the client shows as it was shows the outcome exactly if it is right everywhere. */
  lemma BlitShowsIff(remote: Paint, local: Paint, was: Grid<Pixel>, want: Grid<Pixel>, after: Grid<Pixel>, h: nat,
                     w: nat, from: Grid<Pixel>, sx: int, sy: int, rect: Rect)
    requires Blitted(local, was, want, h, w, rect, from, sx, sy)
    requires Blitted(remote, was, after, h, w, rect, from, sx, sy)
    ensures after == want <==> BlitRight(remote, local, true, was, h, w, from, sx, sy, rect)
  {
    if after == want {
      forall x, y | rect.Has(x, y)
        ensures FirstRight(remote, local, from[sy + y - rect.y][sx + x - rect.x], was[y][x])
      {
        assert after[y][x] == want[y][x];
      }
    }
    if BlitRight(remote, local, true, was, h, w, from, sx, sy, rect) {
      forall p ensures !Differ(after, want, p) {
        if rect.Has(p.x, p.y) {
          assert FirstRight(remote, local, from[sy + p.y - rect.y][sx + p.x - rect.x], was[p.y][p.x]);
        }
      }
      SameGrid(after, want, h, w);
    }
  }
}
