/** Pixels and the blend strategies used by the blitter.

    A pixel is an unsigned 32-bit word packed as 0xAARRGGBB: alpha in bits
    24-31, red in 16-23, green in 8-15 and blue in 0-7. The word is modelled as
    an integer below 2^32. Masking with one of the four byte masks keeps that
    byte in its lane, which is a division and a remainder by powers of 256;
    OR-ing values whose non-zero bits lie in different lanes is their sum. Each
    32-bit addition or multiplication of the code is wrapped explicitly. */
module Blend {

  const Word: int := 0x1_0000_0000

  type U32 = x: int | 0 <= x < 0x1_0000_0000
  type Pixel = U32

  /** An 8-bit channel value. */
  type Channel = c: int | 0 <= c < 256

  /** The 32-bit unsigned wrap-around of a mathematical integer. */
  function Wrap(v: int): U32 { v % Word }

  lemma WrapIdentity(v: int)
    requires 0 <= v < Word
    ensures Wrap(v) == v
  {}

  /** The four channels of a pixel. */
  function Blue(p: Pixel): Channel { p % 0x100 }
  function Green(p: Pixel): Channel { p / 0x100 % 0x100 }
  function Red(p: Pixel): Channel { p / 0x1_0000 % 0x100 }
  function Alpha(p: Pixel): Channel { p / 0x100_0000 }

  /** `p & 0x000000ff`, `p & 0x0000ff00`, `p & 0x00ff0000` and `p & 0xff000000`. */
  function BlueMask(p: Pixel): Pixel { Blue(p) }
  function GreenMask(p: Pixel): Pixel { Green(p) * 0x100 }
  function RedMask(p: Pixel): Pixel { Red(p) * 0x1_0000 }
  function AlphaMask(p: Pixel): Pixel { Alpha(p) * 0x100_0000 }

  /** The word whose channels are `a`, `r`, `g` and `b`. */
  function Pack(a: Channel, r: Channel, g: Channel, b: Channel): Pixel
  {
    a * 0x100_0000 + r * 0x1_0000 + g * 0x100 + b
  }

  lemma PackChannels(a: Channel, r: Channel, g: Channel, b: Channel)
    ensures var p := Pack(a, r, g, b);
      Alpha(p) == a && Red(p) == r && Green(p) == g && Blue(p) == b
  {
    var p := Pack(a, r, g, b);
    assert p % 0x100 == b;
    assert p / 0x100 == a * 0x1_0000 + r * 0x100 + g;
    assert p / 0x1_0000 == a * 0x100 + r;
    assert p / 0x100_0000 == a;
  }

  lemma UnpackChannels(p: Pixel)
    ensures Pack(Alpha(p), Red(p), Green(p), Blue(p)) == p
  {
    var q1, q2 := p / 0x100, p / 0x1_0000;
    assert p == q1 * 0x100 + Blue(p);
    assert q1 == q2 * 0x100 + Green(p);
    assert q2 == Alpha(p) * 0x100 + Red(p);
  }

  function Min(a: int, b: int): int { if a < b then a else b }
  function Max(a: int, b: int): int { if a < b then b else a }

  /** `blend_min` instantiated at pixel: the smaller of the two words. */
  function BlendMin(a: Pixel, b: Pixel): (r: Pixel)
    ensures r <= a && r <= b
    ensures r == a || r == b
  {
    if a < b then a else b
  }

  /** `blend_max` instantiated at pixel: the larger of the two words. */
  function BlendMax(a: Pixel, b: Pixel): (r: Pixel)
    ensures r >= a && r >= b
    ensures r == a || r == b
  {
    if a > b then a else b
  }

  /** Straight copy: the destination is ignored. */
  function BlendNone(dst: Pixel, src: Pixel): (r: Pixel)
    ensures r == src
  {
    src
  }

  /** Per-channel addition: each pair of masked lanes is added in 32 bits and
      capped at the lane's mask; the four capped lanes are OR'd together. */
  function BlendAdd(dst: Pixel, src: Pixel): Pixel
  {
    var b := BlendMin(Wrap(BlueMask(dst) + BlueMask(src)), 0x0000_00ff);
    var g := BlendMin(Wrap(GreenMask(dst) + GreenMask(src)), 0x0000_ff00);
    var r := BlendMin(Wrap(RedMask(dst) + RedMask(src)), 0x00ff_0000);
    var a := BlendMin(Wrap(AlphaMask(dst) + AlphaMask(src)), 0xff00_0000);
    Wrap(b + g + r + a)
  }

  /** One colour lane of blend_alpha: the source lane times the source alpha
      plus the destination lane times its complement, in 32-bit arithmetic,
      divided by 255. */
  function LaneMix(srcLane: U32, dstLane: U32, a: Channel): U32
  {
    Wrap(Wrap(srcLane * a) + Wrap(dstLane * (255 - a))) / 255
  }

  /** Straight (non-premultiplied) alpha compositing with the source alpha.
      Each colour lane is mixed in place and masked back to its lane. Only the
      three colour lanes are OR'd into the result, so its alpha is 0. */
  function BlendAlpha(dst: Pixel, src: Pixel): Pixel
  {
    var a := Alpha(src);
    var r := LaneMix(RedMask(src), RedMask(dst), a);
    var g := LaneMix(GreenMask(src), GreenMask(dst), a);
    var b := LaneMix(BlueMask(src), BlueMask(dst), a);
    Wrap(RedMask(r) + GreenMask(g) + BlueMask(b))
  }

  /** The blend strategy passed to the blitter. */
  datatype BlendFunc = NoBlend | AddBlend | AlphaBlend

  function Apply(f: BlendFunc, dst: Pixel, src: Pixel): Pixel
  {
    match f
    case NoBlend => BlendNone(dst, src)
    case AddBlend => BlendAdd(dst, src)
    case AlphaBlend => BlendAlpha(dst, src)
  }

  // ---------------------------------------------------------------------
  // blend_add

  /** A lane sum capped at the lane's mask is the capped channel sum, still in
      its lane. */
  lemma CappedLane(x: Channel, y: Channel, scale: int)
    requires scale == 1 || scale == 0x100 || scale == 0x1_0000
    ensures Wrap(x * scale + y * scale) == (x + y) * scale
    ensures BlendMin(Wrap(x * scale + y * scale), 255 * scale) == Min(x + y, 255) * scale
  {
    assert x * scale + y * scale == (x + y) * scale;
    if scale == 1 {
    } else if scale == 0x100 {
    } else {
    }
  }

  /** The alpha lanes' sum wraps at 2^32, so the capped alpha is the channel
      sum modulo 256, a carry out of the word being lost. */
  lemma WrappedAlphaLane(x: Channel, y: Channel)
    ensures BlendMin(Wrap(x * 0x100_0000 + y * 0x100_0000), 0xff00_0000)
         == (x + y) % 256 * 0x100_0000
  {
    if x + y >= 256 {
      assert x * 0x100_0000 + y * 0x100_0000 - Word == (x + y - 256) * 0x100_0000;
    } else {
      assert x * 0x100_0000 + y * 0x100_0000 == (x + y) * 0x100_0000;
    }
  }

  /** blend_add as a packing of its four lane results: the colour channels
      add with saturation and alpha adds modulo 256. */
  lemma BlendAddPacks(dst: Pixel, src: Pixel)
    ensures BlendAdd(dst, src) == Pack((Alpha(dst) + Alpha(src)) % 256, Min(Red(dst) + Red(src), 255),
                                      Min(Green(dst) + Green(src), 255), Min(Blue(dst) + Blue(src), 255))
  {
    var b, g := Min(Blue(dst) + Blue(src), 255), Min(Green(dst) + Green(src), 255);
    var r, a := Min(Red(dst) + Red(src), 255), (Alpha(dst) + Alpha(src)) % 256;
    CappedLane(Blue(dst), Blue(src), 1);
    CappedLane(Green(dst), Green(src), 0x100);
    CappedLane(Red(dst), Red(src), 0x1_0000);
    WrappedAlphaLane(Alpha(dst), Alpha(src));
    var lb := BlendMin(Wrap(BlueMask(dst) + BlueMask(src)), 0x0000_00ff);
    var lg := BlendMin(Wrap(GreenMask(dst) + GreenMask(src)), 0x0000_ff00);
    var lr := BlendMin(Wrap(RedMask(dst) + RedMask(src)), 0x00ff_0000);
    var la := BlendMin(Wrap(AlphaMask(dst) + AlphaMask(src)), 0xff00_0000);
    assert lb == b;
    assert lg == g * 0x100;
    assert lr == r * 0x1_0000;
    assert la == a * 0x100_0000;
    assert lb + lg + lr + la == Pack(a, r, g, b);
    WrapIdentity(lb + lg + lr + la);
    assert BlendAdd(dst, src) == Pack(a, r, g, b);
  }

  /** Blue, green and red saturate at 255 with no carry into the next channel;
      alpha wraps modulo 256. */
  lemma BlendAddChannels(dst: Pixel, src: Pixel)
    ensures Blue(BlendAdd(dst, src)) == Min(Blue(dst) + Blue(src), 255)
    ensures Green(BlendAdd(dst, src)) == Min(Green(dst) + Green(src), 255)
    ensures Red(BlendAdd(dst, src)) == Min(Red(dst) + Red(src), 255)
    ensures Alpha(BlendAdd(dst, src)) == (Alpha(dst) + Alpha(src)) % 256
  {
    BlendAddPacks(dst, src);
    PackChannels((Alpha(dst) + Alpha(src)) % 256, Min(Red(dst) + Red(src), 255),
                 Min(Green(dst) + Green(src), 255), Min(Blue(dst) + Blue(src), 255));
  }

  /** The order of the two pixels does not matter. */
  lemma BlendAddCommutes(dst: Pixel, src: Pixel)
    ensures BlendAdd(dst, src) == BlendAdd(src, dst)
  {
    BlendAddPacks(dst, src);
    BlendAddPacks(src, dst);
  }

  /** A pixel is determined by its four channels. */
  lemma SameChannels(p: Pixel, q: Pixel)
    requires Alpha(p) == Alpha(q) && Red(p) == Red(q) && Green(p) == Green(q) && Blue(p) == Blue(q)
    ensures p == q
  {
    UnpackChannels(p);
    UnpackChannels(q);
  }

  /** Adding the all-zero pixel changes nothing. */
  lemma BlendAddZero(dst: Pixel)
    ensures BlendAdd(dst, 0) == dst
  {
    calc {
      BlendAdd(dst, 0);
      == { BlendAddPacks(dst, 0); }
      Pack((Alpha(dst) + Alpha(0)) % 256, Min(Red(dst) + Red(0), 255), Min(Green(dst) + Green(0), 255), Min(Blue(dst) + Blue(0), 255));
      == { assert Alpha(0) == 0 && Red(0) == 0 && Green(0) == 0 && Blue(0) == 0; }
      Pack(Alpha(dst), Red(dst), Green(dst), Blue(dst));
      == { UnpackChannels(dst); }
      dst;
    }
  }

  /** Because alpha wraps, a fully white pixel plus 0x01010101 loses its
      alpha while the colour channels stay at 255. */
  lemma BlendAddWrapsAlpha()
    ensures BlendAdd(0xFFFF_FFFF, 0x0101_0101) == 0x00FF_FFFF
  {
    var w, o := 0xFFFF_FFFF, 0x0101_0101;
    assert Alpha(w) == 255 && Red(w) == 255 && Green(w) == 255 && Blue(w) == 255;
    assert Alpha(o) == 1 && Red(o) == 1 && Green(o) == 1 && Blue(o) == 1;
    BlendAddPacks(w, o);
    assert Pack(0, 255, 255, 255) == 0x00FF_FFFF;
  }

  // ---------------------------------------------------------------------
  // blend_alpha

  lemma {:induction false} MulMonotone(x: nat, y: nat, k: nat)
    requires x <= y
    ensures x * k <= y * k
  {
    if k > 0 {
      MulMonotone(x, y, k - 1);
      assert x * k == x * (k - 1) + x;
      assert y * k == y * (k - 1) + y;
    }
  }

  /** The weighted sum lies between 255 times the smaller and 255 times the
      larger channel. */
  lemma MixBounds(s: Channel, d: Channel, a: Channel)
    ensures 255 * Min(s, d) <= s * a + d * (255 - a) <= 255 * Max(s, d)
  {
    MulMonotone(Min(s, d), s, a);
    MulMonotone(Min(s, d), d, 255 - a);
    MulMonotone(s, Max(s, d), a);
    MulMonotone(d, Max(s, d), 255 - a);
    assert Min(s, d) * a + Min(s, d) * (255 - a) == 255 * Min(s, d);
    assert Max(s, d) * a + Max(s, d) * (255 - a) == 255 * Max(s, d);
  }

  /** One channel of the alpha mix: `s` weighted by `a`, `d` by `255 - a`. */
  function Mix(s: Channel, d: Channel, a: Channel): Channel
  {
    MixBounds(s, d, a);
    (s * a + d * (255 - a)) / 255
  }

  /** The mixed channel lies between the two input channels, and full or zero
      source alpha picks the source or the destination. */
  lemma MixProperties(s: Channel, d: Channel, a: Channel)
    ensures Min(s, d) <= Mix(s, d, a) <= Max(s, d)
    ensures a == 255 ==> Mix(s, d, a) == s
    ensures a == 0 ==> Mix(s, d, a) == d
  {
    MixBounds(s, d, a);
  }

  /** Both weighted terms are non-negative and their sum is at most 255 * 255. */
  lemma MixTerms(s: Channel, d: Channel, a: Channel)
    ensures 0 <= s * a && 0 <= d * (255 - a)
    ensures s * a + d * (255 - a) <= 255 * 255
  {
    MixBounds(s, d, a);
    MulMonotone(Max(s, d), 255, 255);
  }

  lemma QuotientInLane8(x: int)
    requires 0 <= x <= 255 * 255
    ensures x * 0x100 / 255 / 0x100 % 0x100 == x / 255
  {
    var q, m := x / 255, x % 255;
    assert x * 0x100 == 255 * (q * 0x100) + m * 0x100;
    assert x * 0x100 / 255 == q * 0x100 + m * 0x100 / 255;
  }

  lemma QuotientInLane16(x: int)
    requires 0 <= x <= 255 * 255
    ensures x * 0x1_0000 / 255 / 0x1_0000 % 0x100 == x / 255
  {
    var q, m := x / 255, x % 255;
    assert x * 0x1_0000 == 255 * (q * 0x1_0000) + m * 0x1_0000;
    assert x * 0x1_0000 / 255 == q * 0x1_0000 + m * 0x1_0000 / 255;
  }

  /** Dividing a lane-scaled value by 255 and reading the lane back is the
      same as dividing the unscaled value. */
  lemma ScaledQuotient(x: int, scale: int)
    requires 0 <= x <= 255 * 255
    requires scale == 1 || scale == 0x100 || scale == 0x1_0000
    ensures x * scale / 255 / scale % 0x100 == x / 255
  {
    if scale == 0x100 {
      QuotientInLane8(x);
    } else if scale == 0x1_0000 {
      QuotientInLane16(x);
    }
  }

  /** Two lane-scaled terms whose sum is at most 255 * 255 are added without
      any 32-bit wrap. */
  lemma ScaledSum(p: int, q: int, scale: int)
    requires 0 <= p && 0 <= q && p + q <= 255 * 255
    requires scale == 1 || scale == 0x100 || scale == 0x1_0000
    ensures Wrap(Wrap(p * scale) + Wrap(q * scale)) == (p + q) * scale
  {
    if scale == 1 {
    } else if scale == 0x100 {
      WrapIdentity(p * 0x100);
      WrapIdentity(q * 0x100);
      WrapIdentity((p + q) * 0x100);
    } else {
      WrapIdentity(p * 0x1_0000);
      WrapIdentity(q * 0x1_0000);
      WrapIdentity((p + q) * 0x1_0000);
    }
  }

  /** A channel moved into its lane still fits in 32 bits. */
  lemma LaneFits(s: Channel, scale: int)
    requires scale == 1 || scale == 0x100 || scale == 0x1_0000
    ensures 0 <= s * scale < Word
  {
    MulMonotone(s, 255, scale);
  }

  /** Multiplying in place is multiplying the channel and moving the product
      into the lane. */
  lemma InPlaceProduct(s: Channel, k: Channel, scale: int)
    ensures s * scale * k == s * k * scale
  {}

  /** A lane mixed in place and read back from its lane is the mixed
      channel; no 32-bit product or sum wraps. */
  lemma MixedLane(s: Channel, d: Channel, a: Channel, scale: int)
    requires scale == 1 || scale == 0x100 || scale == 0x1_0000
    ensures 0 <= s * scale < Word && 0 <= d * scale < Word
    ensures 0 <= s * scale * a + d * scale * (255 - a) < Word
    ensures LaneMix(s * scale, d * scale, a) == (s * a + d * (255 - a)) * scale / 255
    ensures LaneMix(s * scale, d * scale, a) / scale % 0x100 == Mix(s, d, a)
  {
    LaneFits(s, scale);
    LaneFits(d, scale);
    MixTerms(s, d, a);
    InPlaceProduct(s, a, scale);
    InPlaceProduct(d, 255 - a, scale);
    ScaledSum(s * a, d * (255 - a), scale);
    MulMonotone(s * a + d * (255 - a), 255 * 255, scale);
    ScaledQuotient(s * a + d * (255 - a), scale);
  }

  /** blend_alpha packs the three mixed channels under a zero alpha. */
  lemma BlendAlphaPacks(dst: Pixel, src: Pixel)
    ensures BlendAlpha(dst, src) == Pack(0, Mix(Red(src), Red(dst), Alpha(src)),
      Mix(Green(src), Green(dst), Alpha(src)), Mix(Blue(src), Blue(dst), Alpha(src)))
  {
    var a := Alpha(src);
    var r, g, b := Mix(Red(src), Red(dst), a), Mix(Green(src), Green(dst), a), Mix(Blue(src), Blue(dst), a);
    MixedLane(Red(src), Red(dst), a, 0x1_0000);
    MixedLane(Green(src), Green(dst), a, 0x100);
    MixedLane(Blue(src), Blue(dst), a, 1);
    var vr := LaneMix(RedMask(src), RedMask(dst), a);
    var vg := LaneMix(GreenMask(src), GreenMask(dst), a);
    var vb := LaneMix(BlueMask(src), BlueMask(dst), a);
    assert Red(vr) == r && Green(vg) == g && Blue(vb) == b;
    assert RedMask(vr) + GreenMask(vg) + BlueMask(vb) == Pack(0, r, g, b);
    WrapIdentity(Pack(0, r, g, b));
  }

  /** The colour channels are the straight alpha mix of source over
      destination weighted by the source alpha; the alpha channel is 0. */
  lemma BlendAlphaChannels(dst: Pixel, src: Pixel)
    ensures Red(BlendAlpha(dst, src)) == Mix(Red(src), Red(dst), Alpha(src))
    ensures Green(BlendAlpha(dst, src)) == Mix(Green(src), Green(dst), Alpha(src))
    ensures Blue(BlendAlpha(dst, src)) == Mix(Blue(src), Blue(dst), Alpha(src))
    ensures Alpha(BlendAlpha(dst, src)) == 0
  {
    var a := Alpha(src);
    BlendAlphaPacks(dst, src);
    PackChannels(0, Mix(Red(src), Red(dst), a), Mix(Green(src), Green(dst), a), Mix(Blue(src), Blue(dst), a));
  }

  /** An opaque source replaces the colour channels; a fully transparent one
      keeps the destination's. Either way the alpha byte is cleared. */
  lemma BlendAlphaExtremes(dst: Pixel, src: Pixel)
    ensures Alpha(src) == 255 ==> BlendAlpha(dst, src) == src % 0x100_0000
    ensures Alpha(src) == 0 ==> BlendAlpha(dst, src) == dst % 0x100_0000
  {
    var p := BlendAlpha(dst, src);
    BlendAlphaChannels(dst, src);
    MixProperties(Red(src), Red(dst), Alpha(src));
    MixProperties(Green(src), Green(dst), Alpha(src));
    MixProperties(Blue(src), Blue(dst), Alpha(src));
    UnpackChannels(p);
    UnpackChannels(src);
    UnpackChannels(dst);
  }
}
