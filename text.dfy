/** Printing text into a pixel buffer with a glyph table.

    A glyph is drawn with its lower-left corner `Bottom` rows above the cursor
    at (x, y). Its pixel in column `cx` of row `cy` (rows counted upwards) is
    bit number `cy * width + cx` of the glyph's pixel bits. Only the inked
    pixels are written; the rest of the buffer keeps its colour. */
module Text {
  import opened Blend
  import opened Font
  import opened Raster

  /** Whether the pixel in column `cx` of row `cy` of glyph `g` is set. */
  predicate Inked(g: int, cx: nat, cy: nat)
  {
    Ink(g, Stride(cy, Width(g)) + cx)
  }

  /** Buffer index of the lower-left pixel of glyph `g` printed at (x, y). */
  function Origin(g: int, x: int, y: int, pitch: int): int
  {
    x + (y + Bottom(g)) * pitch
  }

  /** Buffer index of the pixel in column `cx` of row `cy` of glyph `g` printed at (x, y). */
  function CellIndex(g: int, x: int, y: int, pitch: int, cx: int, cy: nat): int
  {
    Origin(g, x, y, pitch) + cx + Stride(cy, pitch)
  }

  /** Pixel (cx, cy) is bit `cy * width + cx` of the glyph, and lands `cx`
      cells right of the cursor and `Bottom + cy` rows up. */
  lemma PixelPlacement(g: int, x: int, y: int, pitch: int, cx: nat, cy: nat)
    ensures Inked(g, cx, cy) == Ink(g, cy * Width(g) + cx)
    ensures CellIndex(g, x, y, pitch, cx, cy) == x + cx + (y + Bottom(g) + cy) * pitch
  {
    StrideIsProduct(cy, Width(g));
    StrideIsProduct(cy, pitch);
    assert (y + Bottom(g) + cy) * pitch == (y + Bottom(g)) * pitch + cy * pitch;
  }

  /** The buffer after the first `k` pixels of row `cy` of glyph `g` were drawn at (x, y). */
  function DrawRow(b: seq<Pixel>, g: int, x: int, y: int, pitch: int, color: Pixel, cy: nat, k: nat): (r: seq<Pixel>)
    ensures |r| == |b|
    decreases k
  {
    if k == 0 then b
    else
      var before := DrawRow(b, g, x, y, pitch, color, cy, k - 1);
      var i := CellIndex(g, x, y, pitch, k - 1, cy);
      if Inked(g, k - 1, cy) && 0 <= i < |before| then before[i := color] else before
  }

  /** The buffer after the first `k` rows of glyph `g` were drawn at (x, y). */
  function DrawRows(b: seq<Pixel>, g: int, x: int, y: int, pitch: int, color: Pixel, k: nat): (r: seq<Pixel>)
    ensures |r| == |b|
    decreases k
  {
    if k == 0 then b
    else DrawRow(DrawRows(b, g, x, y, pitch, color, k - 1), g, x, y, pitch, color, k - 1, Width(g))
  }

  /** Whether one of the first `k` pixels of row `cy` is inked and lands on index `i`. */
  predicate RowHit(g: int, x: int, y: int, pitch: int, cy: nat, k: nat, i: int)
  {
    exists cx: nat :: cx < k && Inked(g, cx, cy) && CellIndex(g, x, y, pitch, cx, cy) == i
  }

  /** Whether one of the pixels of the first `k` rows is inked and lands on index `i`. */
  predicate Hit(g: int, x: int, y: int, pitch: int, k: nat, i: int)
  {
    exists cx: nat, cy: nat :: cy < k && cx < Width(g) && Inked(g, cx, cy) && CellIndex(g, x, y, pitch, cx, cy) == i
  }

  lemma {:induction false} DrawRowAt(b: seq<Pixel>, g: int, x: int, y: int, pitch: int, color: Pixel, cy: nat, k: nat, i: int)
    requires 0 <= i < |b|
    ensures DrawRow(b, g, x, y, pitch, color, cy, k)[i] == if RowHit(g, x, y, pitch, cy, k, i) then color else b[i]
    decreases k
  {
    if k > 0 {
      DrawRowAt(b, g, x, y, pitch, color, cy, k - 1, i);
      var j := CellIndex(g, x, y, pitch, k - 1, cy);
      if RowHit(g, x, y, pitch, cy, k - 1, i) {
        var cx: nat :| cx < k - 1 && Inked(g, cx, cy) && CellIndex(g, x, y, pitch, cx, cy) == i;
        assert cx < k;
      }
      if Inked(g, k - 1, cy) && j == i {
        assert k - 1 < k;
      }
      if RowHit(g, x, y, pitch, cy, k, i) && !(Inked(g, k - 1, cy) && j == i) {
        var cx: nat :| cx < k && Inked(g, cx, cy) && CellIndex(g, x, y, pitch, cx, cy) == i;
        assert cx < k - 1;
      }
    }
  }

  /** Drawing the first `k` rows of a glyph paints exactly the cells their
      inked pixels land on. */
  lemma {:induction false} DrawRowsAt(b: seq<Pixel>, g: int, x: int, y: int, pitch: int, color: Pixel, k: nat, i: int)
    requires 0 <= i < |b|
    ensures DrawRows(b, g, x, y, pitch, color, k)[i] == if Hit(g, x, y, pitch, k, i) then color else b[i]
    decreases k
  {
    if k > 0 {
      var before := DrawRows(b, g, x, y, pitch, color, k - 1);
      DrawRowsAt(b, g, x, y, pitch, color, k - 1, i);
      DrawRowAt(before, g, x, y, pitch, color, k - 1, Width(g), i);
      if Hit(g, x, y, pitch, k - 1, i) {
        var cx: nat, cy: nat :| cy < k - 1 && cx < Width(g) && Inked(g, cx, cy) && CellIndex(g, x, y, pitch, cx, cy) == i;
        assert cy < k;
      }
      if RowHit(g, x, y, pitch, k - 1, Width(g), i) {
        var cx: nat :| cx < Width(g) && Inked(g, cx, k - 1) && CellIndex(g, x, y, pitch, cx, k - 1) == i;
        assert k - 1 < k;
      }
      if Hit(g, x, y, pitch, k, i) && !RowHit(g, x, y, pitch, k - 1, Width(g), i) {
        var cx: nat, cy: nat :| cy < k && cx < Width(g) && Inked(g, cx, cy) && CellIndex(g, x, y, pitch, cx, cy) == i;
        assert cy != k - 1;
      }
    }
  }

  /** The buffer after glyph word `g` was drawn at (x, y). */
  function DrawWord(b: seq<Pixel>, g: int, x: int, y: int, pitch: int, color: Pixel): (r: seq<Pixel>)
    ensures |r| == |b|
  {
    DrawRows(b, g, x, y, pitch, color, Height(g))
  }

  /** The buffer after one byte was printed at (x, y) with `font`. */
  function DrawGlyph(b: seq<Pixel>, font: seq<int>, c: Byte, x: int, y: int, pitch: int, color: Pixel): (r: seq<Pixel>)
    requires IsFont(font)
    ensures |r| == |b|
  {
    if c < 0x21 then b else DrawWord(b, Glyph(font, c), x, y, pitch, color)
  }

  /** The buffer after the bytes `s` were printed from (x, y) onwards. */
  function Printed(b: seq<Pixel>, font: seq<int>, s: seq<Byte>, x: int, y: int, pitch: int, color: Pixel): (r: seq<Pixel>)
    requires IsFont(font)
    ensures |r| == |b|
    decreases |s|
  {
    if |s| == 0 then b
    else Printed(DrawGlyph(b, font, s[0], x, y, pitch, color), font, s[1..], x + Advance(font, s[0]), y, pitch, color)
  }

  lemma {:induction false} TextWidthSnoc(font: seq<int>, s: seq<Byte>, c: Byte)
    requires IsFont(font)
    ensures TextWidth(font, s + [c]) == TextWidth(font, s) + Advance(font, c)
  {
    if |s| > 0 {
      assert (s + [c])[1..] == s[1..] + [c];
      TextWidthSnoc(font, s[1..], c);
    }
  }

  /** Printing one more byte draws its glyph where the text so far ends. */
  lemma {:induction false} PrintedSnoc(b: seq<Pixel>, font: seq<int>, s: seq<Byte>, c: Byte, x: int, y: int, pitch: int, color: Pixel)
    requires IsFont(font)
    ensures Printed(b, font, s + [c], x, y, pitch, color)
         == DrawGlyph(Printed(b, font, s, x, y, pitch, color), font, c, x + TextWidth(font, s), y, pitch, color)
    decreases |s|
  {
    if |s| > 0 {
      assert (s + [c])[0] == s[0];
      assert (s + [c])[1..] == s[1..] + [c];
      PrintedSnoc(DrawGlyph(b, font, s[0], x, y, pitch, color), font, s[1..], c, x + Advance(font, s[0]), y, pitch, color);
    }
  }

  /** Spaces and control bytes draw nothing and advance the cursor four pixels each. */
  lemma {:induction false} BlankText(b: seq<Pixel>, font: seq<int>, s: seq<Byte>, x: int, y: int, pitch: int, color: Pixel)
    requires IsFont(font)
    requires forall i :: 0 <= i < |s| ==> s[i] < 0x21
    ensures Printed(b, font, s, x, y, pitch, color) == b
    ensures TextWidth(font, s) == 4 * |s|
    decreases |s|
  {
    if |s| > 0 {
      BlankText(b, font, s[1..], x + 4, y, pitch, color);
    }
  }

  /** Printing only ever writes the text colour. */
  lemma {:induction false} PrintedColours(b: seq<Pixel>, font: seq<int>, s: seq<Byte>, x: int, y: int, pitch: int, color: Pixel, i: int)
    requires IsFont(font) && 0 <= i < |b|
    ensures Printed(b, font, s, x, y, pitch, color)[i] in {b[i], color}
    decreases |s|
  {
    if |s| > 0 {
      var next := DrawGlyph(b, font, s[0], x, y, pitch, color);
      PrintedColours(next, font, s[1..], x + Advance(font, s[0]), y, pitch, color, i);
      if s[0] >= 0x21 {
        var g := Glyph(font, s[0]);
        DrawRowsAt(b, g, x, y, pitch, color, Height(g), i);
      }
    }
  }

  /** Every inked pixel of glyph word `g` printed at (x, y) lands inside a
      buffer of `len` cells. */
  predicate WordFits(g: int, x: int, y: int, pitch: int, len: int)
  {
    forall cx: nat, cy: nat :: cy < Height(g) && cx < Width(g) && Inked(g, cx, cy) ==>
      0 <= CellIndex(g, x, y, pitch, cx, cy) < len
  }

  /** Every glyph of the text lands inside the buffer. */
  predicate TextFits(font: seq<int>, s: seq<Byte>, x: int, y: int, pitch: int, len: int)
    requires IsFont(font)
  {
    forall i :: 0 <= i < |s| && s[i] >= 0x21 ==>
      WordFits(Glyph(font, s[i]), x + TextWidth(font, s[..i]), y, pitch, len)
  }

  /** Draws row `cy` of glyph word `g`, reading its pixel bits from `data`
      and writing from index `dst` on. */
  method PrintRow(g: int, x: int, y: int, color: Pixel, buffer: array<Pixel>, pitch: int,
                  cy: nat, width: int, data: int, dst: int) returns (data': int, dst': int)
    requires WordFits(g, x, y, pitch, buffer.Length)
    requires cy < Height(g) && width == Width(g)
    requires data == Shr(PixelBits(g), Stride(cy, width))
    requires dst == CellIndex(g, x, y, pitch, 0, cy)
    modifies buffer
    ensures data' == Shr(PixelBits(g), Stride(cy, width) + width)
    ensures dst' == CellIndex(g, x, y, pitch, width, cy)
    ensures buffer[..] == DrawRow(old(buffer[..]), g, x, y, pitch, color, cy, width)
  {
    ghost var rowStart := buffer[..];
    data', dst' := data, dst;
    var cx := 0;
    while cx < width
      invariant 0 <= cx <= width
      invariant data' == Shr(PixelBits(g), Stride(cy, width) + cx)
      invariant dst' == CellIndex(g, x, y, pitch, cx, cy)
      invariant buffer[..] == DrawRow(rowStart, g, x, y, pitch, color, cy, cx)
      decreases width - cx
    {
      if data' % 2 == 1 {
        buffer[dst'] := color;
      }
      data' := data' / 2;
      cx := cx + 1;
      dst' := dst' + 1;
    }
  }

  /** Draws glyph word `g` at (x, y) and returns its width: the header is
      peeled off four bits at a time, then the pixel bits one at a time. */
  method PrintWord(g: int, x: int, y: int, color: Pixel, buffer: array<Pixel>, pitch: int) returns (width: int)
    requires WordFits(g, x, y, pitch, buffer.Length)
    modifies buffer
    ensures width == Width(g)
    ensures buffer[..] == DrawWord(old(buffer[..]), g, x, y, pitch, color)
  {
    ghost var b0 := buffer[..];
    var data := g;
    var bottom := data % 16; data := data / 16;
    width := data % 16; data := data / 16;
    var height := data % 16; data := data / 16;

    var dst := x + (y + bottom) * pitch;
    var cy := 0;
    while cy < height
      invariant 0 <= cy <= height
      invariant data == Shr(PixelBits(g), Stride(cy, width))
      invariant dst == CellIndex(g, x, y, pitch, 0, cy)
      invariant buffer[..] == DrawRows(b0, g, x, y, pitch, color, cy)
      decreases height - cy
    {
      data, dst := PrintRow(g, x, y, color, buffer, pitch, cy, width, data, dst);
      cy := cy + 1;
      dst := dst + (pitch - width);
    }
  }

  /** Prints the bytes `str` with `font` from (x, y) onwards into `buffer`, a
      grid of rows of `pitch` cells. */
  method PrintHelper(font: seq<int>, str: seq<Byte>, x: int, y: int, color: Pixel, buffer: array<Pixel>, pitch: int)
    requires IsFont(font) && TextFits(font, str, x, y, pitch, buffer.Length)
    modifies buffer
    ensures buffer[..] == Printed(old(buffer[..]), font, str, x, y, pitch, color)
  {
    ghost var b0 := buffer[..];
    var cursor := x;
    var i := 0;
    while i < |str|
      invariant 0 <= i <= |str|
      invariant cursor == x + TextWidth(font, str[..i])
      invariant buffer[..] == Printed(b0, font, str[..i], x, y, pitch, color)
    {
      var c := str[i];
      PrintedSnoc(b0, font, str[..i], c, x, y, pitch, color);
      TextWidthSnoc(font, str[..i], c);
      assert str[..i + 1] == str[..i] + [c];
      if c < 0x21 {
        cursor := cursor + 4;
        i := i + 1;
        continue;
      }
      if c > 0x7f {
        c := 0x7f;
      }
      var width := PrintWord(font[c - 0x21], cursor, y, color, buffer, pitch);
      cursor := cursor + width + 1;
      i := i + 1;
    }
    assert str[..i] == str;
  }

  /** The length of a NUL-terminated string held in `s`: the bytes before the
      first zero, or all of `s` when it holds none. */
  function CStringLength(s: seq<Byte>): (n: nat)
    ensures n <= |s|
    ensures forall k :: 0 <= k < n ==> s[k] != 0
    ensures n < |s| ==> s[n] == 0
  {
    if |s| == 0 || s[0] == 0 then 0 else 1 + CStringLength(s[1..])
  }
}
