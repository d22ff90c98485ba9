/** The built-in bitmap font used to print text on a surface.

    Each of the 95 glyphs, for the bytes 0x21 to 0x7f, is one 64-bit word read
    as a stream of bits from the least significant end. The first twelve bits
    are a header of three 4-bit fields: the bottom offset (how many rows above
    the cursor the glyph starts), the width and the height. Then one bit per
    pixel follows, rows of `width` bits from left to right, rows from the
    bottom up. The last glyph, for 0x7f, is a paragraph sign that stands for
    every byte above 0x7f. Bytes below 0x21 draw nothing and advance the cursor
    by four pixels. */
module Font {

  type Byte = b: int | 0 <= b < 256

  const FontData: seq<int> := [
    0x000000000007d712, 0x000000000002d237, 0x0000295f57d4a752, 0x000013c1741e4752,
    0x0000452820a51752, 0x00001144b3536752, 0x0000000000003217, 0x000000c21112c742,
    0x0000003488843742, 0x0000000000969346, 0x0000000427c84552, 0x0000000000007311,
    0x000000000001f154, 0x0000000000003212, 0x0000410820841752, 0x00003a39ace2e752,
    0x000010c42109f752, 0x00003a306083f752, 0x00003a306422e752, 0x000062928fe10752,
    0x00007c2f8422e752, 0x000030417c62e752, 0x00007e3041084752, 0x00003a317462e752,
    0x00003a31f4106752, 0x0000000000033612, 0x0000000000067711, 0x0000008421248742,
    0x00000000f801f453, 0x0000001248421742, 0x00003a3041004752, 0x001e86db7d07e762,
    0x00003a3f8c631752, 0x00003e2f8c62f752, 0x00003a210862e752, 0x00003e318c62f752,
    0x00007c270843f752, 0x00007c2708421752, 0x0000783d8c62e752, 0x0000463f8c631752,
    0x00000001d2497732, 0x000042108422e752, 0x000045274c631752, 0x000004210843f752,
    0x000047758c631752, 0x00004675cc631752, 0x00003a318c62e752, 0x00003e2f08421752,
    0x00003a318c536752, 0x00003e2f8c631752, 0x0000782e8422e752, 0x00007c8421084752,
    0x000046318c62e752, 0x000046318a944752, 0x000046318d771752, 0x0000454454631752,
    0x0000454421084752, 0x00007e082083f752, 0x00000001c924f732, 0x0000044222110752,
    0x00000001e4927732, 0x0000000001151356, 0x000000000001f151, 0x0000000000006228,
    0x0000000e87a3e552, 0x0000042d9c62f752, 0x0000000e8862e552, 0x00004216cc63e752,
    0x0000000e8fc3e552, 0x000000c2f2222742, 0x000003d18fa0f651, 0x0000042d9c631752,
    0x000000000005f712, 0x000802108462e851, 0x0000001195359742, 0x0000000001556722,
    0x0000000bad631552, 0x0000000f8c631552, 0x0000000e8c62e552, 0x000001b38bc21651,
    0x000002d98fa10651, 0x0000000d98421552, 0x0000001e0ba0f552, 0x00000000ba494732,
    0x000000118c63e552, 0x000000118c544552, 0x000000118d6be552, 0x0000001151151552,
    0x000002318fa0f651, 0x0000001f4105f552, 0x000000c22122c742, 0x00000000000ff811,
    0x0000003448443742, 0x0000000000999267, 0x00007af7b4210752
  ]

  /** A glyph table: one word for each byte from 0x21 to 0x7f. */
  const GlyphCount := 0x7f - 0x21 + 1

  predicate IsFont(font: seq<int>)
  {
    |font| == GlyphCount
  }

  /** The table entry drawn for a printable byte. */
  function GlyphIndex(c: Byte): int
    requires c >= 0x21
  {
    (if c > 0x7f then 0x7f else c) - 0x21
  }

  function Glyph(font: seq<int>, c: Byte): int
    requires IsFont(font) && c >= 0x21
  {
    font[GlyphIndex(c)]
  }

  /** The three header fields of a glyph word. */
  function Bottom(g: int): int { g % 16 }
  function Width(g: int): int { g / 16 % 16 }
  function Height(g: int): int { g / 16 / 16 % 16 }

  /** The pixel bits of a glyph, with the header shifted out. */
  function PixelBits(g: int): int { g / 16 / 16 / 16 }

  /** `v` shifted right by `k` bits. */
  function Shr(v: int, k: nat): int
  {
    if k == 0 then v else Shr(v, k - 1) / 2
  }

  /** Whether the `n`-th pixel of the glyph's stream is set. */
  predicate Ink(g: int, n: nat)
  {
    Shr(PixelBits(g), n) % 2 == 1
  }

  /** How far the cursor moves for a byte. */
  function Advance(font: seq<int>, c: Byte): int
    requires IsFont(font)
  {
    if c < 0x21 then 4 else Width(Glyph(font, c)) + 1
  }

  function TextWidth(font: seq<int>, s: seq<Byte>): int
    requires IsFont(font)
  {
    if |s| == 0 then 0 else Advance(font, s[0]) + TextWidth(font, s[1..])
  }

  /** The built-in table has a glyph for every printable byte. */
  lemma BuiltInFont()
    ensures IsFont(FontData)
  {}

  /** Every byte above 0x7f shows the glyph of 0x7f, and the bytes from 0x21 to
      0x7f each have their own table entry. */
  lemma GlyphSelection(font: seq<int>, c: Byte, d: Byte)
    requires IsFont(font) && c >= 0x21 && d >= 0x21
    ensures 0 <= GlyphIndex(c) < GlyphCount
    ensures c > 0x7f ==> Glyph(font, c) == Glyph(font, 0x7f)
    ensures c <= 0x7f && d <= 0x7f ==> (GlyphIndex(c) == GlyphIndex(d) <==> c == d)
  {}

  /** The glyph of two columns and three rows, four rows above the cursor,
      whose rows from the bottom read left-only, both and right-only. */
  lemma ExampleGlyph()
    ensures var g := 0x2d324;
      Bottom(g) == 4 && Width(g) == 2 && Height(g) == 3 &&
      Ink(g, 0) && !Ink(g, 1) && Ink(g, 2) && Ink(g, 3) && !Ink(g, 4) && Ink(g, 5)
  {}
}
