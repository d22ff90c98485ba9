/** The pixel surface: an owned buffer of `pitch * height` pixels whose rows
    are `pitch` pixels apart and show their first `width` pixels, with the
    operations that copy, move, clear, plot, print and blit onto it. */
module Surfaces {
  import opened Blend
  import opened Raster
  import opened Font
  import opened Text

  class Surface {
    var buffer: array?<Pixel>
    var width: int
    var height: int
    var pitch: int

    /** Either the surface is empty (no rows, no columns) or it has a buffer
        of `pitch * height` pixels with at least one visible column per row.
        A copy of an empty surface is empty but holds a zero-length buffer. */
    predicate Valid()
      reads this
    {
      && 0 <= width <= pitch && 0 <= height
      && (width == 0 ==> height == 0 && pitch == 0)
      && (width > 0 ==> height > 0 && buffer != null)
      && (buffer != null ==> buffer.Length == pitch * height)
    }

    /** The pixels the surface holds; none when it has no buffer. */
    function Pixels(): (p: seq<Pixel>)
      reads this, buffer
      requires Valid()
      ensures |p| == pitch * height
    {
      if buffer == null then [] else buffer[..]
    }

    /** operator bool: the surface holds a buffer. Without one it has no
        size either. */
    predicate IsSet(): (set_: bool)
      reads this
      requires Valid()
      ensures set_ <==> buffer != null
      ensures !set_ ==> width == 0 && height == 0 && pitch == 0
    {
      buffer != null
    }

    /** operator(): the pixel at column x of row y. */
    function At(x: int, y: int): Pixel
      reads this, buffer
      requires Valid() && IsSet() && 0 <= x + y * pitch < buffer.Length
    {
      buffer[x + y * pitch]
    }

    /** The default surface: no buffer and no size. */
    constructor ()
      ensures Valid() && !IsSet()
      ensures width == 0 && height == 0 && pitch == 0
    {
      buffer, width, height, pitch := null, 0, 0, 0;
    }

    /** A zero-filled surface whose rows are exactly as long as they are wide. */
    constructor Sized(width: int, height: int)
      requires width > 0 && height > 0
      ensures Valid() && IsSet() && fresh(buffer)
      ensures this.width == width && this.height == height && pitch == width
      ensures buffer[..] == seq(width * height, _ => 0)
    {
      this.width, this.height, pitch := width, height, width;
      buffer := new Pixel[width * height](_ => 0);
    }

    /** A zero-filled surface with rows `pitch` pixels apart. */
    constructor Pitched(width: int, height: int, pitch: int)
      requires width > 0 && height > 0 && pitch >= width
      ensures Valid() && IsSet() && fresh(buffer)
      ensures this.width == width && this.height == height && this.pitch == pitch
      ensures buffer[..] == seq(pitch * height, _ => 0)
    {
      this.width, this.height, this.pitch := width, height, pitch;
      buffer := new Pixel[pitch * height](_ => 0);
    }

    /** A surface that takes over an existing buffer of `pitch * height` pixels. */
    constructor Adopt(width: int, height: int, buffer: array<Pixel>, pitch: int)
      requires width > 0 && height > 0 && pitch >= width
      requires buffer.Length == pitch * height
      ensures Valid() && IsSet()
      ensures this.buffer == buffer
      ensures this.width == width && this.height == height && this.pitch == pitch
    {
      this.buffer := buffer;
      this.width, this.height, this.pitch := width, height, pitch;
    }

    /** The copy constructor: a fresh buffer holding all `pitch * height`
        pixels of `other`, padding included. Even a copy of an empty surface
        allocates (a zero-length buffer). */
    constructor Copy(other: Surface)
      requires other.Valid()
      ensures Valid() && IsSet() && fresh(buffer)
      ensures width == other.width && height == other.height && pitch == other.pitch
      ensures Pixels() == other.Pixels()
    {
      width, height, pitch := other.width, other.height, other.pitch;
      buffer := new Pixel[other.height * other.pitch](_ => 0);
      new;
      if other.buffer != null {
        forall i | 0 <= i < buffer.Length {
          buffer[i] := other.buffer[i];
        }
      }
    }

    /** The move constructor: this surface takes the buffer and the size of
        `other`, which is left empty. */
    constructor Move(other: Surface)
      requires other.Valid()
      modifies other
      ensures Valid() && other.Valid() && !other.IsSet()
      ensures buffer == old(other.buffer)
      ensures width == old(other.width) && height == old(other.height) && pitch == old(other.pitch)
      ensures other.width == 0 && other.height == 0 && other.pitch == 0
    {
      buffer := other.buffer;
      width, height, pitch := other.width, other.height, other.pitch;
      new;
      other.buffer := null;
      other.width, other.height, other.pitch := 0, 0, 0;
    }

    /** Copy assignment. Assigning a surface to itself changes nothing.
        Otherwise the buffer is replaced only when a dimension differs, by
        no buffer for an empty surface and a fresh one for any other, and
        then all `pitch * height` pixels of `other` are copied in. */
    method CopyAssign(other: Surface)
      requires Valid() && other.Valid()
      requires this != other ==> buffer != other.buffer || buffer == null
      modifies this, buffer
      ensures Valid()
      ensures width == old(other.width) && height == old(other.height) && pitch == old(other.pitch)
      ensures Pixels() == old(other.Pixels())
      ensures this == other ==> buffer == old(buffer)
      ensures old(width == other.width && height == other.height && pitch == other.pitch) ==> buffer == old(buffer)
      ensures buffer != old(buffer) ==> buffer == null || fresh(buffer)
      ensures other.buffer != null ==> other.buffer[..] == old(other.buffer[..])
    {
      if this == other {
        return;
      }
      if width != other.width || height != other.height || pitch != other.pitch {
        width, height, pitch := other.width, other.height, other.pitch;
        if width == 0 {
          buffer := null;
        } else {
          buffer := new Pixel[pitch * height](_ => 0);
        }
      }
      if buffer != null && other.buffer != null {
        forall i | 0 <= i < buffer.Length {
          buffer[i] := other.buffer[i];
        }
      }
    }

    /** Move assignment: this surface takes the buffer and the size of
        `other`, which is left empty. */
    method MoveAssign(other: Surface)
      requires Valid() && other.Valid() && this != other
      modifies this, other
      ensures Valid() && other.Valid() && !other.IsSet()
      ensures buffer == old(other.buffer)
      ensures width == old(other.width) && height == old(other.height) && pitch == old(other.pitch)
      ensures other.width == 0 && other.height == 0 && other.pitch == 0
    {
      width, height, pitch := other.width, other.height, other.pitch;
      buffer := other.buffer;
      other.buffer := null;
      other.width, other.height, other.pitch := 0, 0, 0;
    }

    /** Fills the surface with colour `c`. A colour whose four bytes are
        equal is written as one byte fill of the whole buffer, padding
        included; any other colour is written row by row into the visible
        pixels only. */
    method Clear(c: Pixel)
      requires Valid() && IsSet()
      modifies buffer
      ensures buffer[..] == Cleared(old(buffer[..]), width, pitch, c)
    {
      var hue := Blue(c);
      if UniformBytes(c) {
        UniformIsRepeatedByte(c);
        FillBytes(hue);
      } else {
        ClearRows(c);
      }
    }

    /** The row by row path of clear, for a colour whose bytes differ. */
    method ClearRows(c: Pixel)
      requires Valid() && IsSet() && !UniformBytes(c)
      modifies buffer
      ensures buffer[..] == Cleared(old(buffer[..]), width, pitch, c)
    {
      ghost var b0 := buffer[..];
      ClearedByRows(b0, width, height, pitch, c);
      FilledEmpty(b0, Rect(0, 0, width - 1, -1), pitch, c);
      var y := 0;
      while y < height
        invariant 0 <= y <= height
        invariant buffer[..] == Filled(b0, Rect(0, 0, width - 1, y - 1), pitch, c)
      {
        FillRow(y, 0, width - 1, c);
        FilledUnion(b0, Rect(0, 0, width - 1, y - 1), Rect(0, y, width - 1, y), Rect(0, 0, width - 1, y), pitch, c);
        y := y + 1;
      }
    }

    /** memset: every byte of the buffer becomes `hue`, so every pixel
        becomes `hue` repeated four times. */
    method FillBytes(hue: Channel)
      requires Valid() && IsSet()
      modifies buffer
      ensures buffer[..] == seq(buffer.Length, _ => Pack(hue, hue, hue, hue))
    {
      forall i | 0 <= i < buffer.Length {
        buffer[i] := Pack(hue, hue, hue, hue);
      }
    }

    /** Sets pixels `xs` to `xe` of row `y` to `c`: the row loops of clear,
        bar and box. */
    method FillRow(y: int, xs: int, xe: int, c: Pixel)
      requires Valid() && IsSet()
      requires 0 <= y < height && 0 <= xs && xe < width
      modifies buffer
      ensures buffer[..] == Filled(old(buffer[..]), Rect(xs, y, xe, y), pitch, c)
    {
      ghost var b0 := buffer[..];
      FilledEmpty(b0, Rect(xs, y, xs - 1, y), pitch, c);
      var x := xs;
      while x <= xe
        invariant xs <= x && (x <= xe + 1 || x == xs)
        invariant buffer[..] == Filled(b0, Rect(xs, y, x - 1, y), pitch, c)
      {
        IndexInBuffer(x, y, pitch, height);
        FilledUnion(b0, Rect(xs, y, x - 1, y), Rect(x, y, x, y), Rect(xs, y, x, y), pitch, c);
        FilledPoint(buffer[..], x, y, pitch, c);
        buffer[x + y * pitch] := c;
        x := x + 1;
      }
      FilledSameArea(b0, Rect(xs, y, x - 1, y), Rect(xs, y, xe, y), pitch, c);
    }

    /** Sets pixels `ys` to `ye` of column `x` to `c`: the column loops of box. */
    method FillColumn(x: int, ys: int, ye: int, c: Pixel)
      requires Valid() && IsSet()
      requires 0 <= x < width && 0 <= ys && ye < height
      modifies buffer
      ensures buffer[..] == Filled(old(buffer[..]), Rect(x, ys, x, ye), pitch, c)
    {
      ghost var b0 := buffer[..];
      FilledEmpty(b0, Rect(x, ys, x, ys - 1), pitch, c);
      var y := ys;
      while y <= ye
        invariant ys <= y && (y <= ye + 1 || y == ys)
        invariant buffer[..] == Filled(b0, Rect(x, ys, x, y - 1), pitch, c)
      {
        IndexInBuffer(x, y, pitch, height);
        FilledUnion(b0, Rect(x, ys, x, y - 1), Rect(x, y, x, y), Rect(x, ys, x, y), pitch, c);
        FilledPoint(buffer[..], x, y, pitch, c);
        buffer[x + y * pitch] := c;
        y := y + 1;
      }
      FilledSameArea(b0, Rect(x, ys, x, y - 1), Rect(x, ys, x, ye), pitch, c);
    }

    /** Sets the pixel at column x of row y, which must lie on the surface. */
    method Plot(x: int, y: int, color: Pixel)
      requires Valid() && IsSet() && 0 <= x < width && 0 <= y < height
      modifies buffer
      ensures 0 <= x + y * pitch < buffer.Length
      ensures buffer[..] == old(buffer[..])[x + y * pitch := color]
      ensures At(x, y) == color
    {
      IndexInBuffer(x, y, pitch, height);
      buffer[x + y * pitch] := color;
    }

    /** Prints the bytes of a string with the built-in font from (x, y)
        onwards. Nothing is clipped: every inked pixel must land in the buffer. */
    method Print(str: seq<Byte>, x: int, y: int, color: Pixel)
      requires Valid() && IsSet()
      requires TextFits(FontData, str, x, y, pitch, buffer.Length)
      modifies buffer
      ensures buffer[..] == Printed(old(buffer[..]), FontData, str, x, y, pitch, color)
    {
      BuiltInFont();
      PrintHelper(FontData, str, x, y, color, buffer, pitch);
    }

    /** Prints a NUL-terminated string: the bytes before its first zero. */
    method PrintCString(str: seq<Byte>, x: int, y: int, color: Pixel)
      requires Valid() && IsSet()
      requires TextFits(FontData, str[..CStringLength(str)], x, y, pitch, buffer.Length)
      modifies buffer
      ensures buffer[..] == Printed(old(buffer[..]), FontData, str[..CStringLength(str)], x, y, pitch, color)
    {
      BuiltInFont();
      var len := CStringLength(str);
      PrintHelper(FontData, str[..len], x, y, color, buffer, pitch);
    }

    /** Blends the `srcWidth` by `srcHeight` block of `image` whose corner is
        (srcX, srcY) onto this surface at (x, y), clipped to this surface.
        The clipped block must lie in `image` and, when it is not empty,
        start at a non-negative source corner. */
    method DrawBlend(image: Surface, x: int, y: int, srcX: int, srcY: int, srcWidth: int, srcHeight: int,
                     f: BlendFunc := AddBlend)
      requires Valid() && IsSet() && image.Valid() && image.IsSet() && image.buffer != buffer
      requires var c := ClipTo(x, y, srcX, srcY, srcWidth, srcHeight, width, height);
        && c.sx + c.w <= image.width && c.sy + c.h <= image.height
        && (c.w > 0 && c.h > 0 ==> 0 <= c.sx && 0 <= c.sy)
      modifies buffer
      ensures SourceCovers(ClipTo(x, y, srcX, srcY, srcWidth, srcHeight, width, height), image.pitch, image.buffer.Length)
      ensures buffer[..] == Blitted(old(buffer[..]), image.buffer[..],
        ClipTo(x, y, srcX, srcY, srcWidth, srcHeight, width, height), pitch, image.pitch, f)
    {
      var dx, dy, sx, sy, w, h := x, y, srcX, srcY, srcWidth, srcHeight;
      if dx < 0 { sx := sx - dx; w := w + dx; dx := 0; }
      if dy < 0 { sy := sy - dy; h := h + dy; dy := 0; }
      if dx + w > width { w := w - (dx + w - width); }
      if dy + h > height { h := h - (dy + h - height); }
      var c := Clip(dx, dy, sx, sy, w, h);
      assert c == ClipTo(x, y, srcX, srcY, srcWidth, srcHeight, width, height);
      ghost var b0 := buffer[..];
      ghost var s := image.buffer[..];
      if w <= 0 || h <= 0 {
        BlitEmpty(b0, s, c, pitch, image.pitch, f);
        return;
      }
      MulMonotone(sy + h, image.height, image.pitch);
      BlendBlock(image, c, f);
    }

    /** Blends the clipped, non-empty block `c` of `image` onto this surface,
        row by row, advancing both walks to the next row after each. */
    method BlendBlock(image: Surface, c: Clip, f: BlendFunc)
      requires Valid() && IsSet() && image.Valid() && image.IsSet() && image.buffer != buffer
      requires 0 <= c.x && c.x + c.w <= width && 0 < c.w && 0 <= c.y && 0 < c.h && c.y + c.h <= height
      requires SourceCovers(c, image.pitch, image.buffer.Length)
      modifies buffer
      ensures buffer[..] == Blitted(old(buffer[..]), image.buffer[..], c, pitch, image.pitch, f)
    {
      ghost var b0 := buffer[..];
      ghost var s := image.buffer[..];
      var dst := c.x + c.y * pitch;
      var src := c.sx + c.sy * image.pitch;
      var advDst := pitch - c.w;
      var advSrc := image.pitch - c.w;
      BlitEmpty(b0, s, Rows(c, 0), pitch, image.pitch, f);
      var iy := 0;
      while iy < c.h
        invariant 0 <= iy <= c.h
        invariant dst == c.x + (c.y + iy) * pitch
        invariant src == c.sx + (c.sy + iy) * image.pitch
        invariant SourceCovers(Rows(c, iy), image.pitch, |s|)
        invariant buffer[..] == Blitted(b0, s, Rows(c, iy), pitch, image.pitch, f)
      {
        BlitNextRow(b0, s, c, pitch, image.pitch, f, iy);
        dst, src := BlendRow(image, c, f, iy, dst, src);
        assert (c.y + iy + 1) * pitch == (c.y + iy) * pitch + pitch;
        assert (c.sy + iy + 1) * image.pitch == (c.sy + iy) * image.pitch + image.pitch;
        iy := iy + 1;
        dst := dst + advDst;
        src := src + advSrc;
      }
      assert Rows(c, c.h) == c;
    }

    /** Blends row `iy` of block `c` from `image` onto this surface, walking
        the destination from `dst` and the source from `src`. */
    method BlendRow(image: Surface, c: Clip, f: BlendFunc, iy: int, dst: int, src: int) returns (dst': int, src': int)
      requires Valid() && IsSet() && image.Valid() && image.IsSet() && image.buffer != buffer
      requires 0 <= c.x && c.x + c.w <= width && 0 < c.w && 0 <= c.y && 0 <= iy < c.h && c.y + c.h <= height
      requires SourceCovers(c, image.pitch, image.buffer.Length)
      requires dst == c.x + (c.y + iy) * pitch && src == c.sx + (c.sy + iy) * image.pitch
      modifies buffer
      ensures dst' == dst + c.w && src' == src + c.w
      ensures SourceCovers(RowOf(c, iy), image.pitch, image.buffer.Length)
      ensures buffer[..] == Blitted(old(buffer[..]), image.buffer[..], RowOf(c, iy), pitch, image.pitch, f)
    {
      ghost var b1 := buffer[..];
      ghost var s := image.buffer[..];
      SourceCoversRows(c, image.pitch, |s|, iy);
      var row := RowOf(c, iy);
      BlitEmpty(b1, s, Clip(row.x, row.y, row.sx, row.sy, 0, 1), pitch, image.pitch, f);
      dst', src' := dst, src;
      var ix := 0;
      while ix < c.w
        invariant 0 <= ix <= c.w
        invariant dst' == dst + ix && src' == src + ix
        invariant SourceCovers(Clip(row.x, row.y, row.sx, row.sy, ix, 1), image.pitch, |s|)
        invariant buffer[..] == Blitted(b1, s, Clip(row.x, row.y, row.sx, row.sy, ix, 1), pitch, image.pitch, f)
      {
        IndexInBuffer(c.x + ix, c.y + iy, pitch, height);
        BlitGrow(b1, s, Clip(row.x, row.y, row.sx, row.sy, ix, 1), pitch, image.pitch, f);
        buffer[dst'] := Apply(f, buffer[dst'], image.buffer[src']);
        ix := ix + 1;
        dst' := dst' + 1;
        src' := src' + 1;
      }
    }

    /** Blends the whole of `image` onto this surface at (x, y). */
    method DrawBlendImage(image: Surface, x: int, y: int, f: BlendFunc := AddBlend)
      requires Valid() && IsSet() && image.Valid() && image.IsSet() && image.buffer != buffer
      modifies buffer
      ensures SourceCovers(ClipTo(x, y, 0, 0, image.width, image.height, width, height), image.pitch, image.buffer.Length)
      ensures buffer[..] == Blitted(old(buffer[..]), image.buffer[..],
        ClipTo(x, y, 0, 0, image.width, image.height, width, height), pitch, image.pitch, f)
    {
      DrawBlend(image, x, y, 0, 0, image.width, image.height, f);
    }

    /** Copies a block of `image` onto this surface (draw_blend with blend_none). */
    method Draw(image: Surface, x: int, y: int, srcX: int, srcY: int, srcWidth: int, srcHeight: int)
      requires Valid() && IsSet() && image.Valid() && image.IsSet() && image.buffer != buffer
      requires var c := ClipTo(x, y, srcX, srcY, srcWidth, srcHeight, width, height);
        && c.sx + c.w <= image.width && c.sy + c.h <= image.height
        && (c.w > 0 && c.h > 0 ==> 0 <= c.sx && 0 <= c.sy)
      modifies buffer
      ensures SourceCovers(ClipTo(x, y, srcX, srcY, srcWidth, srcHeight, width, height), image.pitch, image.buffer.Length)
      ensures buffer[..] == Blitted(old(buffer[..]), image.buffer[..],
        ClipTo(x, y, srcX, srcY, srcWidth, srcHeight, width, height), pitch, image.pitch, NoBlend)
    {
      DrawBlend(image, x, y, srcX, srcY, srcWidth, srcHeight, NoBlend);
    }

    /** Copies the whole of `image` onto this surface at (x, y). */
    method DrawImage(image: Surface, x: int, y: int)
      requires Valid() && IsSet() && image.Valid() && image.IsSet() && image.buffer != buffer
      modifies buffer
      ensures SourceCovers(ClipTo(x, y, 0, 0, image.width, image.height, width, height), image.pitch, image.buffer.Length)
      ensures buffer[..] == Blitted(old(buffer[..]), image.buffer[..],
        ClipTo(x, y, 0, 0, image.width, image.height, width, height), pitch, image.pitch, NoBlend)
    {
      Draw(image, x, y, 0, 0, image.width, image.height);
    }

    /** Draws the outline of the rectangle with corners (x1, y1) and
        (x2, y2), clipped to the surface. Each edge is drawn only when its row
        or column lies on the surface. */
    method Box(x1: int, y1: int, x2: int, y2: int, color: Pixel)
      requires Valid() && IsSet()
      modifies buffer
      ensures buffer[..] == Outlined(old(buffer[..]), Normalised(x1, y1, x2, y2), width, pitch, color)
    {
      ghost var b0 := buffer[..];
      var x1', y1', x2', y2' := x1, y1, x2, y2;
      if x1' > x2' { x1', x2' := x2', x1'; }
      if y1' > y2' { y1', y2' := y2', y1'; }
      BoxAcross(x1', y1', x2', y2', color);
      BoxUpward(x1', y1', x2', y2', color);
      BoxOutline(b0, Rect(x1', y1', x2', y2'), width, height, pitch, color);
    }

    /** The bottom and top edges of box, for normalised corners. */
    method BoxAcross(x1: int, y1: int, x2: int, y2: int, color: Pixel)
      requires Valid() && IsSet() && x1 <= x2 && y1 <= y2
      modifies buffer
      ensures var e := BoxEdges(Rect(x1, y1, x2, y2), width, height);
        buffer[..] == Filled(Filled(old(buffer[..]), e[0], pitch, color), e[1], pitch, color)
    {
      ghost var e := BoxEdges(Rect(x1, y1, x2, y2), width, height);
      ghost var b0 := buffer[..];
      if x2 >= 0 && x1 < width {
        var xs := Max(x1, 0);
        var xe := Min(x2, width - 1);
        if 0 <= y1 < height {
          FillRow(y1, xs, xe, color);
        } else {
          FilledEmpty(b0, NoRect, pitch, color);
        }
        ghost var b1 := buffer[..];
        if y1 != y2 && 0 <= y2 < height {
          FillRow(y2, xs, xe, color);
        } else {
          FilledEmpty(b1, NoRect, pitch, color);
        }
      } else {
        FilledEmpty(b0, NoRect, pitch, color);
        FilledEmpty(Filled(b0, NoRect, pitch, color), NoRect, pitch, color);
      }
    }

    /** The left and right edges of box, for normalised corners. */
    method BoxUpward(x1: int, y1: int, x2: int, y2: int, color: Pixel)
      requires Valid() && IsSet() && x1 <= x2 && y1 <= y2
      modifies buffer
      ensures var e := BoxEdges(Rect(x1, y1, x2, y2), width, height);
        buffer[..] == Filled(Filled(old(buffer[..]), e[2], pitch, color), e[3], pitch, color)
    {
      ghost var e := BoxEdges(Rect(x1, y1, x2, y2), width, height);
      ghost var b0 := buffer[..];
      if y2 >= 0 && y1 < height {
        var ys := Max(y1, 0);
        var ye := Min(y2, height - 1);
        if 0 <= x1 < width {
          FillColumn(x1, ys, ye, color);
        } else {
          FilledEmpty(b0, NoRect, pitch, color);
        }
        ghost var b1 := buffer[..];
        if x1 != x2 && 0 <= x2 < width {
          FillColumn(x2, ys, ye, color);
        } else {
          FilledEmpty(b1, NoRect, pitch, color);
        }
      } else {
        FilledEmpty(b0, NoRect, pitch, color);
        FilledEmpty(Filled(b0, NoRect, pitch, color), NoRect, pitch, color);
      }
    }

    /** Fills the rectangle with corners (x1', y1') and (x2', y2'), clamped to
        the surface. */
    method Bar(x1: int, y1: int, x2: int, y2: int, color: Pixel)
      requires Valid() && IsSet()
      modifies buffer
      ensures buffer[..] == Filled(old(buffer[..]), BarArea(x1, y1, x2, y2, width, height), pitch, color)
    {
      ghost var b0 := buffer[..];
      var x1', y1', x2', y2' := x1, y1, x2, y2;
      if x1' > x2' { x1', x2' := x2', x1'; }
      if y1' > y2' { y1', y2' := y2', y1'; }
      x1' := Max(x1', 0);
      y1' := Max(y1', 0);
      x2' := Min(x2', width - 1);
      y2' := Min(y2', height - 1);
      FilledEmpty(b0, Rect(x1', y1', x2', y1' - 1), pitch, color);
      var y := y1';
      while y <= y2'
        invariant y1' <= y && (y <= y2' + 1 || y == y1')
        invariant buffer[..] == Filled(b0, Rect(x1', y1', x2', y - 1), pitch, color)
      {
        FillRow(y, x1', x2', color);
        FilledUnion(b0, Rect(x1', y1', x2', y - 1), Rect(x1', y, x2', y), Rect(x1', y1', x2', y), pitch, color);
        y := y + 1;
      }
      FilledSameArea(b0, Rect(x1', y1', x2', y - 1), BarArea(x1, y1, x2, y2, width, height), pitch, color);
    }
  }
}
