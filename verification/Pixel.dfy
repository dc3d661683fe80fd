/** One ARGB pixel: packing, channel extraction and the integer alpha blend. */
module Pixel {
  import opened Bits

  // ----- packing (vbe.h) and extraction -----

  lemma ByteAt(x: nat, k: nat)
    ensures And(Shr(x, k), 0xFF) == x / Pow2(k) % 0x100
  {
    ShrIsQuotient(x, k);
    assert Pow2(8) == 0x100;
    AndMask(Shr(x, k), 8);
  }

  function Alpha(color: uint32): (a: uint8)
    ensures a == color / 0x100_0000
  {
    ByteAt(color, 24); Pow2Values();
    And(Shr(color, 24), 0xFF)
  }

  function Red(color: uint32): (r: uint8)
    ensures r == color / 0x1_0000 % 0x100
  {
    ByteAt(color, 16); Pow2Values();
    And(Shr(color, 16), 0xFF)
  }

  function Green(color: uint32): (g: uint8)
    ensures g == color / 0x100 % 0x100
  {
    ByteAt(color, 8); Pow2Values();
    And(Shr(color, 8), 0xFF)
  }

  function Blue(color: uint32): (b: uint8)
    ensures b == color % 0x100
  {
    ByteAt(color, 0);
    And(Shr(color, 0), 0xFF)
  }

  /** The ARGB macro: four bytes joined by OR */
  function Argb(a: uint8, r: uint8, g: uint8, b: uint8): (color: uint32)
    ensures color == a * 0x100_0000 + r * 0x1_0000 + g * 0x100 + b
  {
    ArgbIsSum(a, r, g, b);
    Or(Or(Or(Shl(a, 24), Shl(r, 16)), Shl(g, 8)), b)
  }

  lemma ArgbIsSum(a: uint8, r: uint8, g: uint8, b: uint8)
    ensures Or(Or(Or(Shl(a, 24), Shl(r, 16)), Shl(g, 8)), b)
            == a * 0x100_0000 + r * 0x1_0000 + g * 0x100 + b
  {
    Pow2Values();
    ShlIsProduct(r, 16);
    ShlIsProduct(g, 8);
    Join(a, r * 0x1_0000, 24);
    Join(a * 0x100 + r, g * 0x100, 16);
    Join(a * 0x1_0000 + r * 0x100 + g, b, 8);
  }

  /** A field above bit k and a field below it, joined by OR, make their sum */
  lemma Join(hi: nat, lo: nat, k: nat)
    requires lo < Pow2(k)
    ensures Shl(hi, k) == hi * Pow2(k)
    ensures Or(hi * Pow2(k), lo) == hi * Pow2(k) + lo
  {
    ShlIsProduct(hi, k);
    OrDisjoint(hi, lo, k);
  }

  function Rgb(r: uint8, g: uint8, b: uint8): uint32 {
    Argb(0xFF, r, g, b)
  }

  /** Packing then extracting, and extracting then packing, are both the identity */
  lemma PackExtract(a: uint8, r: uint8, g: uint8, b: uint8, color: uint32)
    ensures Alpha(Argb(a, r, g, b)) == a && Red(Argb(a, r, g, b)) == r
    ensures Green(Argb(a, r, g, b)) == g && Blue(Argb(a, r, g, b)) == b
    ensures Argb(Alpha(color), Red(color), Green(color), Blue(color)) == color
  {
    var top := Argb(a, r, g, b);
    Digits(top, a, r, g, b);
    Digits(color, Alpha(color), Red(color), Green(color), Blue(color));
  }

  /** Base-256 digits */
  lemma Digits(v: nat, a: nat, r: uint8, g: uint8, b: uint8)
    ensures v == a * 0x100_0000 + r * 0x1_0000 + g * 0x100 + b <==>
            v / 0x100_0000 == a && v / 0x1_0000 % 0x100 == r && v / 0x100 % 0x100 == g && v % 0x100 == b
  {
    var v1 := v / 0x100;
    var v2 := v1 / 0x100;
    var v3 := v2 / 0x100;
    assert v == v1 * 0x100 + v % 0x100 && v1 == v2 * 0x100 + v1 % 0x100 && v2 == v3 * 0x100 + v2 % 0x100;
    assert v2 == v / 0x1_0000;
    assert v3 == v / 0x100_0000;
  }

  /** A pixel is its four channels */
  lemma SameChannels(p: uint32, q: uint32)
    ensures p == q <==> Alpha(p) == Alpha(q) && Red(p) == Red(q) && Green(p) == Green(q) && Blue(p) == Blue(q)
  {
    PackExtract(0, 0, 0, 0, p);
    PackExtract(0, 0, 0, 0, q);
  }

  // ----- one blended channel -----

  /** The weighted mean of foreground f and background b, narrowed to a byte as C does */
  function Mix(f: uint8, b: uint8, alpha: uint8): uint8 {
    U8((f * alpha + b * (255 - alpha)) / 255)
  }

  /** The narrowing loses nothing, and the mean is the background moved towards the
      foreground by the fraction alpha / 255, rounded down */
  lemma MixMoves(f: uint8, b: uint8, alpha: uint8)
    ensures Mix(f, b, alpha) == (f * alpha + b * (255 - alpha)) / 255
    ensures Mix(f, b, alpha) == b + (f - b) * alpha / 255
    ensures b <= Mix(f, b, alpha) <= f || f <= Mix(f, b, alpha) <= b
  {
    assert f * alpha + b * (255 - alpha) == 255 * b + (f - b) * alpha;
    assert (255 * b + (f - b) * alpha) / 255 == b + (f - b) * alpha / 255;
    if f >= b {
      PartOfGap(f - b, alpha);
    } else {
      PartOfGap(b - f, alpha);
      assert (f - b) * alpha == 0 - (b - f) * alpha;
    }
  }

  lemma PartOfGap(gap: nat, alpha: uint8)
    ensures 0 <= gap * alpha <= gap * 255
    ensures 0 <= gap * alpha / 255 <= gap
    ensures 0 - gap <= (0 - gap * alpha) / 255 <= 0
  {
    MulMonotone(gap, 0, alpha);
    MulMonotone(gap, alpha, 255);
  }

  lemma MixMonotone(f: uint8, f': uint8, b: uint8, b': uint8, alpha: uint8)
    requires f <= f' && b <= b'
    ensures Mix(f, b, alpha) <= Mix(f', b', alpha)
  {
    MixMoves(f, b, alpha);
    MixMoves(f', b', alpha);
    MulMonotone(alpha, f, f');
    MulMonotone(255 - alpha, b, b');
  }

  /** A translucent draw pulls a channel that is too bright strictly down, and a channel
      that is too dark strictly up, unless the remaining gap rounds to nothing */
  lemma MixProgress(f: uint8, b: uint8, alpha: uint8)
    requires 0 < alpha < 255
    ensures b > f ==> f <= Mix(f, b, alpha) < b
    ensures b <= f && alpha * (f - b) >= 255 ==> b < Mix(f, b, alpha) <= f
    ensures b <= f && alpha * (f - b) < 255 ==> Mix(f, b, alpha) == b
  {
    MixMoves(f, b, alpha);
    if b > f {
      MulMonotone(alpha, 1, b - f);
      assert (f - b) * alpha == -(alpha * (b - f));
    } else {
      MulMonotone(alpha, 0, f - b);
      assert (f - b) * alpha == alpha * (f - b);
    }
  }

  /** A channel after n draws of the same colour */
  function MixTimes(f: uint8, b: uint8, alpha: uint8, n: nat): uint8 {
    if n == 0 then b else Mix(f, MixTimes(f, b, alpha, n - 1), alpha)
  }

  lemma {:induction false} MixTimesBounds(f: uint8, b: uint8, alpha: uint8, n: nat)
    requires 0 < alpha < 255
    ensures b >= f ==>
              && f <= MixTimes(f, b, alpha, n)
              && (MixTimes(f, b, alpha, n) == f || MixTimes(f, b, alpha, n) <= b - n)
    ensures b < f ==> MixTimes(f, b, alpha, n) <= f
    ensures b < f ==> alpha * (f - MixTimes(f, b, alpha, n)) < 255 || MixTimes(f, b, alpha, n) >= b + n
  {
    if n > 0 {
      MixTimesBounds(f, b, alpha, n - 1);
      var m := MixTimes(f, b, alpha, n - 1);
      MixProgress(f, m, alpha);
      if m == f {
        MulZero(alpha, f - m);
      }
    }
  }

  lemma MulZero(a: int, b: int)
    requires b == 0
    ensures a * b == 0
  {
  }

  /** Where a channel comes to rest: at f from above, within one rounding step of f from below */
  lemma {:induction false} MixTimesSettles(f: uint8, b: uint8, alpha: uint8, n: nat)
    requires 0 < alpha < 255 && n >= 255
    ensures var m := MixTimes(f, b, alpha, n);
            && Mix(f, m, alpha) == m
            && (b >= f ==> m == f)
            && (b < f ==> m <= f && alpha * (f - m) < 255)
  {
    MixTimesBounds(f, b, alpha, n);
    var m := MixTimes(f, b, alpha, n);
    if m == f {
      MulZero(alpha, f - m);
    }
    MixProgress(f, m, alpha);
  }

  // ----- one blended pixel -----

  /** What `vbe_draw_pixel` stores over background `bg` */
  function Blend(bg: uint32, color: uint32): uint32 {
    var alpha := Alpha(color);
    if alpha == 0xFF then color
    else if alpha > 0 then
      Rgb(Mix(Red(color), Red(bg), alpha), Mix(Green(color), Green(bg), alpha), Mix(Blue(color), Blue(bg), alpha))
    else bg
  }

  /** The three colour channels */
  datatype Channel = R | G | B {
    function Of(p: uint32): uint8 {
      match this
      case R => Red(p)
      case G => Green(p)
      case B => Blue(p)
    }
  }

  /** A blended pixel is opaque and its channels are the blended channels */
  lemma BlendChannel(bg: uint32, color: uint32, ch: Channel)
    requires 0 < Alpha(color) < 255
    ensures Alpha(Blend(bg, color)) == 0xFF
    ensures ch.Of(Blend(bg, color)) == Mix(ch.Of(color), ch.Of(bg), Alpha(color))
  {
    var alpha := Alpha(color);
    PackExtract(0xFF, Mix(Red(color), Red(bg), alpha), Mix(Green(color), Green(bg), alpha),
                Mix(Blue(color), Blue(bg), alpha), bg);
  }

  /** No channel of a blend leaves the interval between background and foreground, and
      brighter inputs never give a darker result */
  lemma BlendBetweenAndMonotone(bg: uint32, color: uint32, bg': uint32, color': uint32, ch: Channel)
    requires 0 < Alpha(color) == Alpha(color') < 255
    requires ch.Of(bg) <= ch.Of(bg') && ch.Of(color) <= ch.Of(color')
    ensures Between(ch.Of(bg), ch.Of(Blend(bg, color)), ch.Of(color))
    ensures ch.Of(Blend(bg, color)) <= ch.Of(Blend(bg', color'))
  {
    BlendChannel(bg, color, ch);
    BlendChannel(bg', color', ch);
    MixMoves(ch.Of(color), ch.Of(bg), Alpha(color));
    MixMonotone(ch.Of(color), ch.Of(color'), ch.Of(bg), ch.Of(bg'), Alpha(color));
  }

  predicate Between(a: int, m: int, b: int) {
    a <= m <= b || b <= m <= a
  }

  /** The pixel after n draws of one colour */
  function BlendTimes(bg: uint32, color: uint32, n: nat): uint32 {
    if n == 0 then bg else Blend(BlendTimes(bg, color, n - 1), color)
  }

  lemma {:induction false} BlendTimesChannel(bg: uint32, color: uint32, n: nat, ch: Channel)
    requires 0 < Alpha(color) < 255
    ensures n > 0 ==> Alpha(BlendTimes(bg, color, n)) == 0xFF
    ensures ch.Of(BlendTimes(bg, color, n)) == MixTimes(ch.Of(color), ch.Of(bg), Alpha(color), n)
  {
    if n > 0 {
      BlendTimesChannel(bg, color, n - 1, ch);
      BlendChannel(BlendTimes(bg, color, n - 1), color, ch);
    }
  }

  /** After 255 draws of any colour, one more draw changes nothing */
  lemma BlendReachesFixedPoint(bg: uint32, color: uint32, n: nat)
    requires n >= 255
    ensures Blend(BlendTimes(bg, color, n), color) == BlendTimes(bg, color, n)
  {
    if 0 < Alpha(color) < 255 {
      var last := BlendTimes(bg, color, n);
      forall ch: Channel
        ensures ch.Of(Blend(last, color)) == ch.Of(last)
      {
        ChannelSettles(bg, color, n, ch);
      }
      ChannelSettles(bg, color, n, R);
      SameChannels(last, Blend(last, color));
      assert R.Of(Blend(last, color)) == R.Of(last);
      assert G.Of(Blend(last, color)) == G.Of(last);
      assert B.Of(Blend(last, color)) == B.Of(last);
    }
  }

  /** Where translucent drawing comes to rest.  From a background at or above the
      foreground: exactly at the foreground.  From below: never past it, and within one
      rounding step of it. */
  lemma ChannelSettles(bg: uint32, color: uint32, n: nat, ch: Channel)
    requires 0 < Alpha(color) < 255 && n >= 255
    ensures var f, b, m := ch.Of(color), ch.Of(bg), ch.Of(BlendTimes(bg, color, n));
            && (b >= f ==> m == f)
            && (b < f ==> m <= f && Alpha(color) * (f - m) < 255)
    ensures Alpha(BlendTimes(bg, color, n)) == Alpha(Blend(BlendTimes(bg, color, n), color)) == 0xFF
    ensures ch.Of(Blend(BlendTimes(bg, color, n), color)) == ch.Of(BlendTimes(bg, color, n))
  {
    BlendTimesChannel(bg, color, n, ch);
    MixTimesSettles(ch.Of(color), ch.Of(bg), Alpha(color), n);
    BlendChannel(BlendTimes(bg, color, n), color, ch);
  }

  /** A background at or below the foreground by less than one rounding step */
  predicate AtRest(f: uint8, b: uint8, alpha: uint8) {
    b <= f && alpha * (f - b) < 255
  }

  lemma ChannelFixedPoints(f: uint8, b: uint8, alpha: uint8)
    requires 0 < alpha < 255
    ensures Mix(f, b, alpha) == b <==> AtRest(f, b, alpha)
  {
    MixProgress(f, b, alpha);
  }

  /** The exact fixed points of a translucent draw */
  lemma BlendFixedPoints(bg: uint32, color: uint32)
    requires 0 < Alpha(color) < 255
    ensures Blend(bg, color) == bg <==>
            Alpha(bg) == 0xFF && forall ch: Channel :: AtRest(ch.Of(color), ch.Of(bg), Alpha(color))
  {
    forall ch: Channel
      ensures ch.Of(Blend(bg, color)) == ch.Of(bg) <==> AtRest(ch.Of(color), ch.Of(bg), Alpha(color))
      ensures Alpha(Blend(bg, color)) == 0xFF
    {
      BlendChannel(bg, color, ch);
      ChannelFixedPoints(ch.Of(color), ch.Of(bg), Alpha(color));
    }
    BlendChannel(bg, color, R);
    SameChannels(bg, Blend(bg, color));
    assert R.Of(bg) == Red(bg) && G.Of(bg) == Green(bg) && B.Of(bg) == Blue(bg);
  }

  /** Every draw in numbers: alpha 0 leaves the pixel, alpha 255 replaces it */
  lemma BlendEnds(bg: uint32, color: uint32)
    ensures color < 0x100_0000 ==> Blend(bg, color) == bg
    ensures color >= 0xFF00_0000 ==> Blend(bg, color) == color
  {
  }

  lemma BlendChannelInNumbers(bg: uint32, color: uint32, ch: Channel)
    requires 0 < Alpha(color) < 255
    ensures Alpha(Blend(bg, color)) == 0xFF
    ensures ch.Of(Blend(bg, color)) == Weighted(ch.Of(color), ch.Of(bg), Alpha(color))
  {
    BlendChannel(bg, color, ch);
    MixMoves(ch.Of(color), ch.Of(bg), Alpha(color));
  }

  /** The exact weighted mean, rounded down */
  function Weighted(f: nat, b: nat, a: nat): int {
    (f * a + b * (255 - a)) / 255
  }

  /** In between, the pixel becomes opaque and its red, green and blue are the weighted means */
  lemma BlendInNumbers(bg: uint32, color: uint32)
    requires 0x100_0000 <= color < 0xFF00_0000
    ensures var (a, out) := (color / 0x100_0000, Blend(bg, color));
            && out / 0x100_0000 == 0xFF
            && out / 0x1_0000 % 0x100 == Weighted(color / 0x1_0000 % 0x100, bg / 0x1_0000 % 0x100, a)
            && out / 0x100 % 0x100 == Weighted(color / 0x100 % 0x100, bg / 0x100 % 0x100, a)
            && out % 0x100 == Weighted(color % 0x100, bg % 0x100, a)
  {
    assert 0 < Alpha(color) < 255;
    BlendChannelInNumbers(bg, color, R);
    BlendChannelInNumbers(bg, color, G);
    BlendChannelInNumbers(bg, color, B);
  }
}
