/** 32-bit ARGB pixels, and the per-pixel operations of
    src/common/surface.c. */
module Pixels {
  import opened Grids
  import opened Rects

  type Pixel = bv32

  datatype Point = Point(x: int, y: int)

  predicate Opaque(p: Pixel) {
    p & 0xFF000000 == 0xFF000000
  }

  /** guac_common_surface_blend_component */
  function BlendComponent(dst: bv32, src: bv32, alpha: bv32): bv32 {
    var blended := src + dst * (0xFF - alpha);
    if blended > 0xFF then 0xFF else blended
  }

  /** guac_common_surface_argb_blend */
  function ArgbBlend(dst: Pixel, src: Pixel): Pixel {
    var dstA := (dst >> 24) & 0xFF;
    var srcA := (src >> 24) & 0xFF;
    if srcA == 0xFF || dstA == 0x00 then src
    else if srcA == 0x00 then dst
    else
      var r := BlendComponent((dst >> 16) & 0xFF, (src >> 16) & 0xFF, srcA);
      var g := BlendComponent((dst >> 8) & 0xFF, (src >> 8) & 0xFF, srcA);
      var b := BlendComponent(dst & 0xFF, src & 0xFF, srcA);
      var a := BlendComponent(dstA, srcA, srcA);
      (a << 24) | (r << 16) | (g << 8) | b
  }

  datatype TransferFunction =
    | Black | White | Src | Dest | Nsrc | Ndest
    | And | Nand | Or | Nor | Xor | Xnor
    | NsrcAnd | NsrcNand | NsrcOr | NsrcNor

  /** __guac_common_surface_transfer_int: the new value of the destination. */
  function TransferColor(op: TransferFunction, src: Pixel, dst: Pixel): Pixel {
    match op
    case Black => 0xFF000000
    case White => 0xFFFFFFFF
    case Src => src
    case Dest => dst
    case Nsrc => src ^ 0x00FFFFFF
    case Ndest => dst ^ 0x00FFFFFF
    case And => dst & (0xFF000000 | src)
    case Nand => (dst & (0xFF000000 | src)) ^ 0x00FFFFFF
    case Or => dst | (0x00FFFFFF & src)
    case Nor => (dst | (0x00FFFFFF & src)) ^ 0x00FFFFFF
    case Xor => dst ^ (0x00FFFFFF & src)
    case Xnor => (dst ^ (0x00FFFFFF & src)) ^ 0x00FFFFFF
    case NsrcAnd => dst & (0xFF000000 | (src ^ 0x00FFFFFF))
    case NsrcNand => (dst & (0xFF000000 | (src ^ 0x00FFFFFF))) ^ 0x00FFFFFF
    case NsrcOr => dst | (0x00FFFFFF & (src ^ 0x00FFFFFF))
    case NsrcNor => (dst | (0x00FFFFFF & (src ^ 0x00FFFFFF))) ^ 0x00FFFFFF
  }

  /** What the pixel loops of src/common/surface.c do with a source and a destination pixel. */
  datatype Ink =
    | Draw(rgb: bool)                 // __guac_common_surface_put; RGB sources have no alpha channel
    | Solid(color: Pixel)             // __guac_common_surface_set
    | Stencil(color24: Pixel)         // __guac_common_surface_fill_mask
    | Combine(op: TransferFunction)   // __guac_common_surface_transfer

  function InkColor(ink: Ink, src: Pixel, dst: Pixel): Pixel {
    match ink
    case Draw(rgb) => if rgb then src | 0xFF000000 else ArgbBlend(dst, src)
    case Solid(color) => color
    case Stencil(color24) => if src & 0xFF000000 != 0 then 0xFF000000 | color24 else dst
    case Combine(op) => TransferColor(op, src, dst)
  }

  /** `want` is image `was` after all pixels of `rect` have been inked at once, each from the
      pixel of image `from` at the same distance from (sx, sy). */
  ghost predicate Inked(was: Grid<Pixel>, want: Grid<Pixel>, h: nat, w: nat, from: Grid<Pixel>, sx: int, sy: int,
                        rect: Rect, ink: Ink) {
    && IsGrid(was, h, w) && IsGrid(want, h, w) && rect.Inside(Rect(0, 0, w, h))
    && 0 <= sx && 0 <= sy && sy + rect.height <= |from|
    && (forall y :: 0 <= y < |from| ==> sx + rect.width <= |from[y]|)
    && forall x, y {:trigger want[y][x]} :: 0 <= x < w && 0 <= y < h ==>
         want[y][x] == if rect.Has(x, y) then InkColor(ink, from[sy + y - rect.y][sx + x - rect.x], was[y][x])
                       else was[y][x]
  }

  lemma InkedAt(was: Grid<Pixel>, want: Grid<Pixel>, h: nat, w: nat, from: Grid<Pixel>, sx: int, sy: int, rect: Rect,
                ink: Ink, x: int, y: int, fx: int, fy: int)
    requires Inked(was, want, h, w, from, sx, sy, rect, ink) && rect.Has(x, y)
    requires fx == sx + x - rect.x && fy == sy + y - rect.y
    ensures 0 <= x < w && 0 <= y < h && 0 <= fy < |from| && 0 <= fx < |from[fy]|
    ensures want[y][x] == InkColor(ink, from[fy][fx], was[y][x])
  {
  }

  /** `now` is image `was` with one colour all over `rect`. */
  ghost predicate Plain(was: Grid<Pixel>, now: Grid<Pixel>, h: nat, w: nat, rect: Rect, color: Pixel) {
    && IsGrid(was, h, w) && IsGrid(now, h, w)
    && forall x, y :: 0 <= x < w && 0 <= y < h ==> now[y][x] == if rect.Has(x, y) then color else was[y][x]
  }

  lemma InkedPlain(was: Grid<Pixel>, now: Grid<Pixel>, h: nat, w: nat, from: Grid<Pixel>, sx: int, sy: int,
                   rect: Rect, color: Pixel)
    requires Inked(was, now, h, w, from, sx, sy, rect, Solid(color))
    ensures Plain(was, now, h, w, rect, color)
  {
  }

  lemma InkedExists(was: Grid<Pixel>, h: nat, w: nat, from: Grid<Pixel>, sx: int, sy: int, rect: Rect, ink: Ink)
    returns (want: Grid<Pixel>)
    requires IsGrid(was, h, w) && rect.Inside(Rect(0, 0, w, h))
    requires 0 <= sx && 0 <= sy && sy + rect.height <= |from|
    requires forall y :: 0 <= y < |from| ==> sx + rect.width <= |from[y]|
    ensures Inked(was, want, h, w, from, sx, sy, rect, ink)
  {
    want := seq(h, y requires 0 <= y < h => seq(w, x requires 0 <= x < w =>
      if rect.Has(x, y) then InkColor(ink, from[sy + y - rect.y][sx + x - rect.x], was[y][x]) else was[y][x]));
  }
}
