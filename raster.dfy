/** The layout of a pixel buffer and what each drawing operation of the
    surface does to it, as functions of the buffer's old contents.

    A surface of `width` by `height` pixels keeps its rows `pitch` pixels apart
    (pitch >= width) in one buffer of `pitch * height` pixels; pixel (x, y) is
    at index `x + y * pitch`. The pixels of a row beyond `width` are padding. */
module Raster {
  import opened Blend

  /** The column and row of a buffer index. */
  function Col(i: int, pitch: int): int
    requires pitch > 0
  {
    i % pitch
  }

  function Row(i: int, pitch: int): int
    requires pitch > 0
  {
    i / pitch
  }

  /** `k` rows of `stride` cells, as a sum: the product `k * stride` (see
      StrideIsProduct), written so that stepping a row adds one stride. */
  function Stride(k: nat, stride: int): (r: int)
    ensures stride >= 0 ==> r >= 0
  {
    if k == 0 then 0 else Stride(k - 1, stride) + stride
  }

  lemma {:induction false} StrideIsProduct(k: nat, stride: int)
    ensures Stride(k, stride) == k * stride
  {
    if k > 0 {
      StrideIsProduct(k - 1, stride);
      assert k * stride == (k - 1) * stride + stride;
    }
  }

  /** Column and row undo the layout. */
  lemma Decode(x: int, y: int, pitch: int)
    requires 0 <= x < pitch
    ensures Col(x + y * pitch, pitch) == x && Row(x + y * pitch, pitch) == y
  {
    var i := x + y * pitch;
    var q, r := i / pitch, i % pitch;
    assert (q - y) * pitch == x - r;
    if q > y {
      MulMonotone(1, q - y, pitch);
    } else if q < y {
      MulMonotone(1, y - q, pitch);
    }
  }

  /** The index of a column and row, the inverse of Decode. */
  lemma Encode(i: int, pitch: int)
    requires pitch > 0
    ensures i == Col(i, pitch) + Row(i, pitch) * pitch
    ensures 0 <= Col(i, pitch) < pitch
  {}

  /** A pixel of the surface lies inside its buffer. */
  lemma IndexInBuffer(x: int, y: int, pitch: int, height: int)
    requires 0 <= x < pitch && 0 <= y < height
    ensures 0 <= x + y * pitch < pitch * height
  {
    MulMonotone(y, height - 1, pitch);
    assert (height - 1) * pitch + pitch == pitch * height;
  }

  /** The buffer index of a pixel within the surface's rows lies below the
      buffer's length exactly when its row does. */
  lemma RowOfIndex(i: int, pitch: int, height: int)
    requires pitch > 0 && 0 <= i < pitch * height
    ensures 0 <= Row(i, pitch) < height
  {
    if Row(i, pitch) >= height {
      MulMonotone(height, Row(i, pitch), pitch);
    }
  }

  // ---------------------------------------------------------------------
  // clear

  /** All four bytes of the colour are the same, so a byte fill of the
      buffer writes that colour into every word. */
  predicate UniformBytes(c: Pixel)
  {
    Blue(c) == Green(c) && Blue(c) == Red(c) && Blue(c) == Alpha(c)
  }

  /** A uniform colour is the word made of its low byte repeated. */
  lemma UniformIsRepeatedByte(c: Pixel)
    ensures UniformBytes(c) <==> c == Pack(Blue(c), Blue(c), Blue(c), Blue(c))
  {
    UnpackChannels(c);
    PackChannels(Blue(c), Blue(c), Blue(c), Blue(c));
  }

  /** The buffer after clear: a uniform colour fills the whole buffer,
      padding included; any other colour fills the `width` visible pixels of
      each row and leaves the padding alone. */
  function Cleared(b: seq<Pixel>, width: int, pitch: int, c: Pixel): seq<Pixel>
  {
    seq(|b|, i requires 0 <= i < |b| =>
      if UniformBytes(c) || (pitch > 0 && Col(i, pitch) < width) then c else b[i])
  }

  /** Every visible pixel has the clear colour; a padding pixel keeps its old
      value unless the colour is uniform. */
  lemma ClearedAt(b: seq<Pixel>, width: int, height: int, pitch: int, c: Pixel, x: int, y: int)
    requires 0 <= width <= pitch && |b| == pitch * height
    requires 0 <= x < pitch && 0 <= y < height
    ensures 0 <= x + y * pitch < |b|
    ensures x < width ==> Cleared(b, width, pitch, c)[x + y * pitch] == c
    ensures width <= x ==>
      Cleared(b, width, pitch, c)[x + y * pitch] == if UniformBytes(c) then c else b[x + y * pitch]
  {
    IndexInBuffer(x, y, pitch, height);
    Decode(x, y, pitch);
  }

  /** Clearing twice with the same colour is clearing once. */
  lemma ClearedIdempotent(b: seq<Pixel>, width: int, pitch: int, c: Pixel)
    ensures Cleared(Cleared(b, width, pitch, c), width, pitch, c) == Cleared(b, width, pitch, c)
  {}

  // ---------------------------------------------------------------------
  // Rectangles given by two corners (bar and box)

  /** An axis-aligned rectangle with inclusive corners. */
  datatype Rect = Rect(x1: int, y1: int, x2: int, y2: int)

  /** The two corners swapped, per axis, so that the first is the smaller. */
  function Normalised(x1: int, y1: int, x2: int, y2: int): (r: Rect)
    ensures r.x1 <= r.x2 && r.y1 <= r.y2
    ensures {r.x1, r.x2} == {x1, x2} && {r.y1, r.y2} == {y1, y2}
  {
    Rect(Min(x1, x2), Min(y1, y2), Max(x1, x2), Max(y1, y2))
  }

  /** The normalised rectangle clamped to the surface, as bar computes it;
      it may be empty (x1 > x2 or y1 > y2). */
  function BarArea(x1: int, y1: int, x2: int, y2: int, width: int, height: int): (r: Rect)
    ensures r.x1 >= 0 && r.y1 >= 0 && r.x2 < width && r.y2 < height
    ensures forall x, y :: InRect(x, y, r) <==>
      InRect(x, y, Normalised(x1, y1, x2, y2)) && 0 <= x < width && 0 <= y < height
  {
    var n := Normalised(x1, y1, x2, y2);
    Rect(Max(n.x1, 0), Max(n.y1, 0), Min(n.x2, width - 1), Min(n.y2, height - 1))
  }

  predicate InRect(x: int, y: int, r: Rect)
  {
    r.x1 <= x <= r.x2 && r.y1 <= y <= r.y2
  }

  /** The buffer with every pixel of the rectangle set to `c`. */
  function Filled(b: seq<Pixel>, r: Rect, pitch: int, c: Pixel): seq<Pixel>
  {
    seq(|b|, i requires 0 <= i < |b| =>
      if pitch > 0 && InRect(Col(i, pitch), Row(i, pitch), r) then c else b[i])
  }

  /** A pixel of the surface has the bar's colour if it lies in the rectangle
      spanned by the two corners and keeps its value otherwise. */
  lemma FilledAt(b: seq<Pixel>, x1: int, y1: int, x2: int, y2: int, width: int, height: int,
                 pitch: int, c: Pixel, x: int, y: int)
    requires 0 < width <= pitch && |b| == pitch * height
    requires 0 <= x < width && 0 <= y < height
    ensures 0 <= x + y * pitch < |b|
    ensures Filled(b, BarArea(x1, y1, x2, y2, width, height), pitch, c)[x + y * pitch]
         == if Min(x1, x2) <= x <= Max(x1, x2) && Min(y1, y2) <= y <= Max(y1, y2)
            then c else b[x + y * pitch]
  {
    IndexInBuffer(x, y, pitch, height);
    Decode(x, y, pitch);
  }

  /** The padding of each row is never painted. */
  lemma FilledKeepsPadding(b: seq<Pixel>, r: Rect, width: int, pitch: int, c: Pixel, i: int)
    requires 0 < pitch && r.x2 < width && 0 <= i < |b| && Col(i, pitch) >= width
    ensures Filled(b, r, pitch, c)[i] == b[i]
  {}

  /** A point on the outline of a normalised rectangle. */
  predicate OnOutline(x: int, y: int, r: Rect)
  {
    ((y == r.y1 || y == r.y2) && r.x1 <= x <= r.x2) ||
    ((x == r.x1 || x == r.x2) && r.y1 <= y <= r.y2)
  }

  /** The buffer with the visible part of the rectangle's outline set to `c`. */
  function Outlined(b: seq<Pixel>, r: Rect, width: int, pitch: int, c: Pixel): seq<Pixel>
  {
    seq(|b|, i requires 0 <= i < |b| =>
      if pitch > 0 && Col(i, pitch) < width && OnOutline(Col(i, pitch), Row(i, pitch), r)
      then c else b[i])
  }

  lemma OutlinedAt(b: seq<Pixel>, x1: int, y1: int, x2: int, y2: int, width: int, height: int,
                   pitch: int, c: Pixel, x: int, y: int)
    requires 0 < width <= pitch && |b| == pitch * height
    requires 0 <= x < width && 0 <= y < height
    ensures 0 <= x + y * pitch < |b|
    ensures Outlined(b, Normalised(x1, y1, x2, y2), width, pitch, c)[x + y * pitch]
         == if OnOutline(x, y, Normalised(x1, y1, x2, y2)) then c else b[x + y * pitch]
  {
    IndexInBuffer(x, y, pitch, height);
    Decode(x, y, pitch);
  }

  /** The outline lies inside the filled rectangle: drawing a box over a bar
      of the same corners and colour changes nothing on the surface. */
  lemma OutlineWithinBar(x1: int, y1: int, x2: int, y2: int, width: int, height: int, x: int, y: int)
    requires 0 <= x < width && 0 <= y < height
    requires OnOutline(x, y, Normalised(x1, y1, x2, y2))
    ensures InRect(x, y, BarArea(x1, y1, x2, y2, width, height))
  {}

  // ---------------------------------------------------------------------
  // Filling one rectangle after another (the row loops of clear, bar and box)

  /** An empty rectangle paints nothing. */
  lemma FilledEmpty(b: seq<Pixel>, r: Rect, pitch: int, c: Pixel)
    requires r.x1 > r.x2 || r.y1 > r.y2
    ensures Filled(b, r, pitch, c) == b
  {}

  /** Only the pixels a rectangle covers matter. */
  lemma FilledSameArea(b: seq<Pixel>, r: Rect, r': Rect, pitch: int, c: Pixel)
    requires forall x, y :: InRect(x, y, r) <==> InRect(x, y, r')
    ensures Filled(b, r, pitch, c) == Filled(b, r', pitch, c)
  {}

  /** Filling two rectangles in turn fills their union. */
  lemma FilledUnion(b: seq<Pixel>, r1: Rect, r2: Rect, r: Rect, pitch: int, c: Pixel)
    requires forall x, y :: InRect(x, y, r) <==> InRect(x, y, r1) || InRect(x, y, r2)
    ensures Filled(Filled(b, r1, pitch, c), r2, pitch, c) == Filled(b, r, pitch, c)
  {}

  /** Filling a single pixel is a write of its index. */
  lemma FilledPoint(b: seq<Pixel>, x: int, y: int, pitch: int, c: Pixel)
    requires 0 <= x < pitch && 0 <= x + y * pitch < |b|
    ensures Filled(b, Rect(x, y, x, y), pitch, c) == b[x + y * pitch := c]
  {
    Decode(x, y, pitch);
    forall i | 0 <= i < |b|
      ensures Filled(b, Rect(x, y, x, y), pitch, c)[i] == b[x + y * pitch := c][i]
    {
      Encode(i, pitch);
    }
  }

  /** Without a uniform colour, clear fills the visible columns of every row. */
  lemma ClearedByRows(b: seq<Pixel>, width: int, height: int, pitch: int, c: Pixel)
    requires !UniformBytes(c) && 0 <= pitch && |b| == pitch * height
    ensures Cleared(b, width, pitch, c) == Filled(b, Rect(0, 0, width - 1, height - 1), pitch, c)
  {
    forall i | 0 <= i < |b|
      ensures Cleared(b, width, pitch, c)[i] == Filled(b, Rect(0, 0, width - 1, height - 1), pitch, c)[i]
    {
      RowOfIndex(i, pitch, height);
    }
  }

  /** A rectangle with nothing in it. */
  const NoRect := Rect(0, 0, -1, -1)

  /** The edges box draws, in the order it draws them, each clipped to the
      surface; an edge that is skipped is NoRect. The right and top edges are
      skipped when they coincide with the left and bottom ones. */
  function BoxEdges(r: Rect, width: int, height: int): seq<Rect>
  {
    var xs, xe := Max(r.x1, 0), Min(r.x2, width - 1);
    var ys, ye := Max(r.y1, 0), Min(r.y2, height - 1);
    var across := r.x2 >= 0 && r.x1 < width;
    var upward := r.y2 >= 0 && r.y1 < height;
    [ if across && 0 <= r.y1 < height then Rect(xs, r.y1, xe, r.y1) else NoRect,
      if across && r.y1 != r.y2 && 0 <= r.y2 < height then Rect(xs, r.y2, xe, r.y2) else NoRect,
      if upward && 0 <= r.x1 < width then Rect(r.x1, ys, r.x1, ye) else NoRect,
      if upward && r.x1 != r.x2 && 0 <= r.x2 < width then Rect(r.x2, ys, r.x2, ye) else NoRect ]
  }

  /** A pixel of the surface lies on one of the drawn edges exactly when it
      lies on the outline. */
  lemma BoxEdgesCover(r: Rect, width: int, height: int, x: int, y: int)
    requires r.x1 <= r.x2 && r.y1 <= r.y2
    requires 0 <= x && 0 <= y < height
    ensures var e := BoxEdges(r, width, height);
      (InRect(x, y, e[0]) || InRect(x, y, e[1]) || InRect(x, y, e[2]) || InRect(x, y, e[3]))
      <==> x < width && OnOutline(x, y, r)
  {}

  /** Filling the four edges in turn draws the visible part of the outline. */
  lemma BoxOutline(b: seq<Pixel>, r: Rect, width: int, height: int, pitch: int, c: Pixel)
    requires r.x1 <= r.x2 && r.y1 <= r.y2
    requires 0 <= pitch && |b| == pitch * height
    ensures var e := BoxEdges(r, width, height);
      Filled(Filled(Filled(Filled(b, e[0], pitch, c), e[1], pitch, c), e[2], pitch, c), e[3], pitch, c)
      == Outlined(b, r, width, pitch, c)
  {
    var e := BoxEdges(r, width, height);
    var p := Filled(Filled(Filled(Filled(b, e[0], pitch, c), e[1], pitch, c), e[2], pitch, c), e[3], pitch, c);
    forall i | 0 <= i < |b|
      ensures p[i] == Outlined(b, r, width, pitch, c)[i]
    {
      RowOfIndex(i, pitch, height);
      BoxEdgesCover(r, width, height, Col(i, pitch), Row(i, pitch));
    }
  }

  /** box as written: the edges its guards let through. Each guard checks
      one side of the surface only, and the loop ends are `size_t`. */
  function BoxEdgesAsWritten(r: Rect, width: int, height: int): seq<Rect>
  {
    var xs, xe := SizeT(Max(r.x1, 0)), SizeT(Min(r.x2, width - 1));
    var ys, ye := SizeT(Max(r.y1, 0)), SizeT(Min(r.y2, height - 1));
    var across := r.x2 >= 0 && r.x1 < width;
    var upward := r.y2 >= 0 && r.y1 < height;
    [ if across && r.y1 >= 0 then Rect(xs, r.y1, xe, r.y1) else NoRect,
      if across && r.y1 != r.y2 && r.y2 < height then Rect(xs, r.y2, xe, r.y2) else NoRect,
      if upward && r.x1 >= 0 then Rect(r.x1, ys, r.x1, ye) else NoRect,
      if upward && r.x1 != r.x2 && r.x2 < width then Rect(r.x2, ys, r.x2, ye) else NoRect ]
  }

  /** A value converted to `size_t`, 64 bits wide. */
  function SizeT(v: int): (r: nat)
    ensures 0 <= v < 0x1_0000_0000_0000_0000 ==> r == v
  {
    v % 0x1_0000_0000_0000_0000
  }

  /** When the normalised corners satisfy x1 < width, 0 <= x2, y1 < height
      and 0 <= y2 on a non-empty surface, box as written draws the same
      edges as the corrected box. */
  lemma BoxAgreesWhenOverlapping(r: Rect, width: int, height: int)
    requires r.x1 <= r.x2 && r.y1 <= r.y2
    requires 0 < width < 0x8000_0000 && 0 < height < 0x8000_0000
    requires r.x1 < width && 0 <= r.x2 && r.y1 < height && 0 <= r.y2
    ensures BoxEdgesAsWritten(r, width, height) == BoxEdges(r, width, height)
  {}

  /** box(0, 200, 10, 300) on a 100 by 100 surface: as written, the bottom
      edge at row 200 is drawn although the surface has rows 0 to 99 only,
      so the write lands past the end of the buffer. */
  lemma BoxWritesPastBuffer(pitch: int)
    requires pitch >= 100
    ensures var e := BoxEdgesAsWritten(Normalised(0, 200, 10, 300), 100, 100);
      e[0] == Rect(0, 200, 10, 200) && 0 + 200 * pitch >= pitch * 100
    ensures BoxEdges(Normalised(0, 200, 10, 300), 100, 100) == [NoRect, NoRect, NoRect, NoRect]
  {}

  /** bar as written: the ranges of its `size_t` loop counters. The counters
      are compared with the clamped corners converted to `size_t`, so a
      negative clamped corner becomes a bound near 2^64. */
  function BarBoundsAsWritten(x1: int, y1: int, x2: int, y2: int, width: int, height: int): (r: Rect)
    requires 0 <= width < 0x8000_0000 && 0 <= height < 0x8000_0000
    requires -0x8000_0000 <= x1 < 0x8000_0000 && -0x8000_0000 <= x2 < 0x8000_0000
    requires -0x8000_0000 <= y1 < 0x8000_0000 && -0x8000_0000 <= y2 < 0x8000_0000
    ensures var a := BarArea(x1, y1, x2, y2, width, height);
      r.x1 == a.x1 && r.y1 == a.y1 && (a.x2 >= 0 ==> r.x2 == a.x2) && (a.y2 >= 0 ==> r.y2 == a.y2)
    ensures var a := BarArea(x1, y1, x2, y2, width, height);
      (a.x2 < 0 ==> r.x2 >= 0x1_0000_0000_0000_0000 + a.x2) && (a.y2 < 0 ==> r.y2 >= 0x1_0000_0000_0000_0000 + a.y2)
  {
    var a := BarArea(x1, y1, x2, y2, width, height);
    Rect(a.x1, a.y1, SizeT(a.x2), SizeT(a.y2))
  }

  /** When the normalised far corner is not left of or below the surface,
      bar as written loops over exactly the clamped rectangle. */
  lemma BarAgreesWhenReaching(x1: int, y1: int, x2: int, y2: int, width: int, height: int)
    requires 0 < width < 0x8000_0000 && 0 < height < 0x8000_0000
    requires -0x8000_0000 <= x1 < 0x8000_0000 && -0x8000_0000 <= x2 < 0x8000_0000
    requires -0x8000_0000 <= y1 < 0x8000_0000 && -0x8000_0000 <= y2 < 0x8000_0000
    requires Max(x1, x2) >= 0 && Max(y1, y2) >= 0
    ensures BarBoundsAsWritten(x1, y1, x2, y2, width, height) == BarArea(x1, y1, x2, y2, width, height)
  {}

  /** bar(0, -20, 10, -10) on a 100 by 100 surface lies wholly below the
      surface, yet as written the row counter runs from 0 up to 2^64 - 10 and
      reaches row 100, whose first pixel is past the end of the buffer. The
      corrected bar paints nothing. */
  lemma BarWritesPastBuffer(pitch: int)
    requires pitch >= 100
    ensures var w := BarBoundsAsWritten(0, -20, 10, -10, 100, 100);
      InRect(0, 100, w) && 0 + 100 * pitch >= pitch * 100
    ensures var a := BarArea(0, -20, 10, -10, 100, 100); a.y1 > a.y2
  {}

  // ---------------------------------------------------------------------
  // Blitting (draw_blend)

  /** The destination rectangle, its source corner and its size after
      clipping against the destination surface. */
  datatype Clip = Clip(x: int, y: int, sx: int, sy: int, w: int, h: int)

  /** Clip a `w` by `h` block drawn at (x, y) from source corner (sx, sy)
      against a `width` by `height` destination. The block's left and top
      edges move to 0 and its right and bottom edges to the destination's,
      and the source corner moves with the destination corner. */
  function ClipTo(x: int, y: int, sx: int, sy: int, w: int, h: int, width: int, height: int): (r: Clip)
    ensures r.x == Max(x, 0) && r.y == Max(y, 0)
    ensures r.x + r.w == Min(x + w, width) && r.y + r.h == Min(y + h, height)
    ensures r.sx - r.x == sx - x && r.sy - r.y == sy - y
  {
    var (x, sx, w) := if x < 0 then (0, sx - x, w + x) else (x, sx, w);
    var (y, sy, h) := if y < 0 then (0, sy - y, h + y) else (y, sy, h);
    var w := if x + w > width then w - (x + w - width) else w;
    var h := if y + h > height then h - (y + h - height) else h;
    Clip(x, y, sx, sy, w, h)
  }

  /** A pixel of the clipped block: the destination column and row in the
      block map to the same offset from the source corner. */
  predicate InClip(col: int, row: int, c: Clip)
  {
    c.x <= col < c.x + c.w && c.y <= row < c.y + c.h
  }

  /** The conditions under which every pixel of the clipped block reads
      inside the source buffer. */
  predicate SourceCovers(c: Clip, srcPitch: int, srcLen: int)
  {
    c.w > 0 && c.h > 0 ==>
      0 <= c.sx && 0 <= c.sy && c.sx + c.w <= srcPitch && (c.sy + c.h) * srcPitch <= srcLen
  }

  /** The index in the source of the pixel that lands on `col`, `row`. */
  function SourceIndex(c: Clip, srcPitch: int, col: int, row: int): int
  {
    c.sx + (col - c.x) + (c.sy + (row - c.y)) * srcPitch
  }

  lemma SourceIndexInBuffer(c: Clip, srcPitch: int, srcLen: int, col: int, row: int)
    requires SourceCovers(c, srcPitch, srcLen) && InClip(col, row, c)
    ensures 0 <= SourceIndex(c, srcPitch, col, row) < srcLen
  {
    IndexInBuffer(c.sx + (col - c.x), c.sy + (row - c.y), srcPitch, c.sy + c.h);
  }

  function BlitPixel(dst: seq<Pixel>, src: seq<Pixel>, c: Clip, pitch: int, srcPitch: int,
                     f: BlendFunc, i: int): Pixel
    requires 0 <= i < |dst| && SourceCovers(c, srcPitch, |src|)
  {
    if pitch > 0 && InClip(Col(i, pitch), Row(i, pitch), c) then
      SourceIndexInBuffer(c, srcPitch, |src|, Col(i, pitch), Row(i, pitch));
      Apply(f, dst[i], src[SourceIndex(c, srcPitch, Col(i, pitch), Row(i, pitch))])
    else
      dst[i]
  }

  /** The destination after blending the clipped block of the source onto it. */
  function Blitted(dst: seq<Pixel>, src: seq<Pixel>, c: Clip, pitch: int, srcPitch: int,
                   f: BlendFunc): (r: seq<Pixel>)
    requires SourceCovers(c, srcPitch, |src|)
    ensures |r| == |dst|
  {
    seq(|dst|, i requires 0 <= i < |dst| => BlitPixel(dst, src, c, pitch, srcPitch, f, i))
  }

  /** Each destination pixel of the clipped block is the blend of its old
      value with the source pixel at the same offset from the source corner;
      every other pixel keeps its value. */
  lemma BlittedAt(dst: seq<Pixel>, src: seq<Pixel>, c: Clip, pitch: int, height: int, srcPitch: int,
                  f: BlendFunc, x: int, y: int)
    requires pitch > 0 && SourceCovers(c, srcPitch, |src|) && |dst| == pitch * height
    requires 0 <= x < pitch && 0 <= y < height
    ensures 0 <= x + y * pitch < |dst|
    ensures InClip(x, y, c) ==>
      && 0 <= SourceIndex(c, srcPitch, x, y) < |src|
      && Blitted(dst, src, c, pitch, srcPitch, f)[x + y * pitch]
         == Apply(f, dst[x + y * pitch], src[SourceIndex(c, srcPitch, x, y)])
    ensures !InClip(x, y, c) ==> Blitted(dst, src, c, pitch, srcPitch, f)[x + y * pitch] == dst[x + y * pitch]
  {
    IndexInBuffer(x, y, pitch, height);
    Decode(x, y, pitch);
    if InClip(x, y, c) {
      SourceIndexInBuffer(c, srcPitch, |src|, x, y);
    }
  }

  /** The clipped block lies inside the destination surface, so padding and
      pixels off the surface are never written. */
  lemma ClipInside(x: int, y: int, sx: int, sy: int, w: int, h: int, width: int, height: int,
                   col: int, row: int)
    requires InClip(col, row, ClipTo(x, y, sx, sy, w, h, width, height))
    ensures 0 <= col < width && 0 <= row < height
    ensures x <= col < x + w && y <= row < y + h
  {}

  /** A block with no columns or no rows changes nothing. */
  lemma BlitEmpty(dst: seq<Pixel>, src: seq<Pixel>, c: Clip, pitch: int, srcPitch: int, f: BlendFunc)
    requires c.w <= 0 || c.h <= 0
    ensures SourceCovers(c, srcPitch, |src|)
    ensures Blitted(dst, src, c, pitch, srcPitch, f) == dst
  {}

  /** The first `k` rows of a block. */
  function Rows(c: Clip, k: int): (r: Clip)
    ensures r.x == c.x && r.y == c.y && r.sx == c.sx && r.sy == c.sy && r.w == c.w && r.h == k
  {
    Clip(c.x, c.y, c.sx, c.sy, c.w, k)
  }

  /** Row `k` of a block, as a block of its own. */
  function RowOf(c: Clip, k: int): (r: Clip)
    ensures r.x == c.x && r.y == c.y + k && r.sx == c.sx && r.sy == c.sy + k && r.w == c.w && r.h == 1
  {
    Clip(c.x, c.y + k, c.sx, c.sy + k, c.w, 1)
  }

  /** A source that covers a block covers each of its first rows and each of
      its rows on its own. */
  lemma SourceCoversRows(c: Clip, srcPitch: int, srcLen: int, k: int)
    requires SourceCovers(c, srcPitch, srcLen) && 0 <= k <= c.h
    ensures SourceCovers(Rows(c, k), srcPitch, srcLen)
    ensures k < c.h ==> SourceCovers(RowOf(c, k), srcPitch, srcLen)
  {
    if c.w > 0 && k > 0 {
      MulMonotone(c.sy + k, c.sy + c.h, srcPitch);
    }
  }

  /** Blending one more pixel at the end of a partly blended row. */
  lemma BlitGrow(dst: seq<Pixel>, src: seq<Pixel>, c: Clip, pitch: int, srcPitch: int, f: BlendFunc)
    requires c.h == 1 && 0 <= c.x && 0 <= c.w && c.x + c.w < pitch && 0 <= c.y
    requires 0 <= c.x + c.w + c.y * pitch < |dst|
    requires SourceCovers(Clip(c.x, c.y, c.sx, c.sy, c.w + 1, 1), srcPitch, |src|)
    ensures SourceCovers(c, srcPitch, |src|)
    ensures 0 <= SourceIndex(c, srcPitch, c.x + c.w, c.y) < |src|
    ensures Blitted(dst, src, c, pitch, srcPitch, f)[c.x + c.w + c.y * pitch] == dst[c.x + c.w + c.y * pitch]
    ensures Blitted(dst, src, Clip(c.x, c.y, c.sx, c.sy, c.w + 1, 1), pitch, srcPitch, f)
         == Blitted(dst, src, c, pitch, srcPitch, f)[c.x + c.w + c.y * pitch :=
              Apply(f, dst[c.x + c.w + c.y * pitch], src[SourceIndex(c, srcPitch, c.x + c.w, c.y)])]
  {
    var k := c.x + c.w + c.y * pitch;
    var c' := Clip(c.x, c.y, c.sx, c.sy, c.w + 1, 1);
    SourceIndexInBuffer(c', srcPitch, |src|, c.x + c.w, c.y);
    Decode(c.x + c.w, c.y, pitch);
    forall i | 0 <= i < |dst|
      ensures Blitted(dst, src, c', pitch, srcPitch, f)[i]
           == Blitted(dst, src, c, pitch, srcPitch, f)[k := Apply(f, dst[k], src[SourceIndex(c, srcPitch, c.x + c.w, c.y)])][i]
    {
      Encode(i, pitch);
    }
  }

  /** Blending row `k` after the first `k` rows blends the first `k + 1`. */
  lemma BlitNextRow(dst: seq<Pixel>, src: seq<Pixel>, c: Clip, pitch: int, srcPitch: int, f: BlendFunc, k: int)
    requires SourceCovers(c, srcPitch, |src|) && 0 <= k < c.h
    ensures SourceCovers(Rows(c, k), srcPitch, |src|) && SourceCovers(Rows(c, k + 1), srcPitch, |src|)
    ensures SourceCovers(RowOf(c, k), srcPitch, |src|)
    ensures Blitted(Blitted(dst, src, Rows(c, k), pitch, srcPitch, f), src, RowOf(c, k), pitch, srcPitch, f)
         == Blitted(dst, src, Rows(c, k + 1), pitch, srcPitch, f)
  {
    SourceCoversRows(c, srcPitch, |src|, k);
    SourceCoversRows(c, srcPitch, |src|, k + 1);
  }

  /** Writing one pixel changes that pixel of the surface and no other. */
  lemma PlotAt(b: seq<Pixel>, x: int, y: int, pitch: int, height: int, color: Pixel, x': int, y': int)
    requires |b| == pitch * height
    requires 0 <= x < pitch && 0 <= y < height && 0 <= x' < pitch && 0 <= y' < height
    ensures 0 <= x + y * pitch < |b| && 0 <= x' + y' * pitch < |b|
    ensures b[x + y * pitch := color][x' + y' * pitch] == if x' == x && y' == y then color else b[x' + y' * pitch]
  {
    IndexInBuffer(x, y, pitch, height);
    IndexInBuffer(x', y', pitch, height);
    Decode(x, y, pitch);
    Decode(x', y', pitch);
  }
}
