/**
 * Integer colour arithmetic of the LED module: clamping and packing of RGB
 * channels into 0xRRGGBB, and the integer HSL to RGB conversion used for
 * test patterns.
 */
module Color {
  import opened Board

  /** Channel extraction from a packed 0xRRGGBB colour. */
  function RedOf(c: int): int { (c / 0x10000) % 256 }
  function GreenOf(c: int): int { (c / 0x100) % 256 }
  function BlueOf(c: int): int { c % 256 }

  /** A channel value limited to 255, as `if (x > 255) x = 255;` does. */
  function Clamp255(x: u32): byte { if x > 255 then 255 else x }

  /**
   * `make_color_rgb`: clamp each channel to 255 and pack red<<16 | green<<8 | blue.
   * The three shifted fields do not overlap, so the bitwise or is a sum.
   */
  function MakeColorRgb(red: u32, green: u32, blue: u32): (c: int)
    ensures 0 <= c <= WHITE
    ensures RedOf(c) == Clamp255(red)
    ensures GreenOf(c) == Clamp255(green)
    ensures BlueOf(c) == Clamp255(blue)
  {
    var r, g, b := Clamp255(red), Clamp255(green), Clamp255(blue);
    PackUnpack(r, g, b);
    r * 0x10000 + g * 0x100 + b
  }

  lemma PackUnpack(r: byte, g: byte, b: byte)
    ensures var c := r * 0x10000 + g * 0x100 + b;
      0 <= c <= WHITE && RedOf(c) == r && GreenOf(c) == g && BlueOf(c) == b
  {
    var c := r * 0x10000 + g * 0x100 + b;
    assert c / 0x100 == r * 0x100 + g;
    assert c / 0x10000 == r;
  }

  /** Two packed colours are equal exactly when their three channels are. */
  lemma {:induction false} MakeColorRgbInjective(r1: byte, g1: byte, b1: byte, r2: byte, g2: byte, b2: byte)
    ensures MakeColorRgb(r1, g1, b1) == MakeColorRgb(r2, g2, b2) <==> r1 == r2 && g1 == g2 && b1 == b2
  {
    var c1, c2 := MakeColorRgb(r1, g1, b1), MakeColorRgb(r2, g2, b2);
    if c1 == c2 {
      assert RedOf(c1) == RedOf(c2) && GreenOf(c1) == GreenOf(c2) && BlueOf(c1) == BlueOf(c2);
    }
  }

  /**
   * `h2rgb`: one channel of the HSL conversion, scaled by 60. The caller
   * always passes v1 <= v2, so the unsigned difference v2 - v1 never wraps;
   * the result lies between v1*60 and v2*60.
   */
  function H2Rgb(v1: nat, v2: nat, hue: nat): (r: nat)
    requires v1 <= v2
    ensures v1 * 60 <= r <= v2 * 60
  {
    if hue < 60 then
      MulMonotone(hue, 60, v2 - v1);
      v1 * 60 + (v2 - v1) * hue
    else if hue < 180 then v2 * 60
    else if hue < 240 then
      MulMonotone(240 - hue, 60, v2 - v1);
      v1 * 60 + (v2 - v1) * (240 - hue)
    else v1 * 60
  }

  /** Multiplication by a natural number is monotone. */
  lemma {:induction false} MulMonotone(a: nat, b: nat, k: nat)
    requires a <= b
    ensures a * k <= b * k
  {
    if k > 0 {
      MulMonotone(a, b, k - 1);
      assert a * k == a * (k - 1) + a;
      assert b * k == b * (k - 1) + b;
    }
  }

  /** The intermediate values var1 and var2 of `make_color_hsl` for clamped inputs. */
  function Var2(saturation: nat, lightness: nat): nat
    requires saturation <= 100 && lightness <= 100
  {
    if lightness < 50 then lightness * (100 + saturation)
    else (lightness + saturation) * 100 - saturation * lightness
  }

  lemma Var2Bounds(saturation: nat, lightness: nat)
    requires saturation <= 100 && lightness <= 100
    ensures Var2(saturation, lightness) <= lightness * 200
    ensures Var2(saturation, lightness) <= 10000
    ensures lightness * 200 - Var2(saturation, lightness) <= Var2(saturation, lightness)
  {
    var l, s := lightness, saturation;
    if l < 50 {
      MulMonotone(100 + s, 200, l);
      MulMonotone(l, 49, 100 + s);
      MulMonotone(100 + s, 200, 49);
      MulMonotone(100 - s, 100 + s, l);
      assert l * 200 - l * (100 + s) == l * (100 - s) by {
        assert l * (100 + s) + l * (100 - s) == l * 200;
      }
    } else {
      var v2 := (l + s) * 100 - s * l;
      assert v2 == l * 100 + s * (100 - l) by {
        assert (l + s) * 100 == l * 100 + s * 100;
        assert s * 100 == s * l + s * (100 - l);
      }
      MulMonotone(s, 100, 100 - l);
      MulMonotone(100 - l, 50, s);
      MulMonotone(s, 100, 50);
    }
  }

  /** Scale one h2rgb result (at most 600000) down to a 0..255 channel. */
  function Scale(x: nat): nat { x * 255 / 600000 }

  /** One channel of an HSL colour: `hue_to_rgb` scaled to 0..255. */
  function HslChannel(v1: nat, v2: nat, hue: nat): (x: byte)
    requires v1 <= v2 <= 10000
    ensures v2 == 0 ==> x == 0
    ensures v1 == 10000 ==> x == 255
  {
    var r := H2Rgb(v1, v2, hue);
    MulMonotone(v2, 10000, 60);
    HslChannelsInRange(r);
    Scale(r)
  }

  /**
   * `make_color_hsl`: reduce the hue modulo 360, clamp saturation and lightness
   * to 100, and convert with integer arithmetic only. Every intermediate value
   * stays below 2^32, so the unsigned arithmetic of the source does not wrap.
   */
  function MakeColorHsl(hue: u32, saturation: u32, lightness: u32): (c: int)
    ensures 0 <= c <= WHITE
    ensures saturation == 0 ==>
      var grey := (if lightness > 100 then 100 else lightness) * 255 / 100;
      RedOf(c) == grey && GreenOf(c) == grey && BlueOf(c) == grey
    ensures lightness == 0 ==> c == BLACK
    ensures lightness >= 100 ==> c == WHITE
  {
    var h := if hue > 359 then hue % 360 else hue;
    var s := if saturation > 100 then 100 else saturation;
    var l := if lightness > 100 then 100 else lightness;
    if s == 0 then
      MakeColorRgb(l * 255 / 100, l * 255 / 100, l * 255 / 100)
    else
      var v2 := Var2(s, l);
      Var2Bounds(s, l);
      var v1 := l * 200 - v2;
      assert l == 0 ==> v2 == 0;
      assert l == 100 ==> v1 == 10000;
      MakeColorRgb(HslChannel(v1, v2, if h < 240 then h + 120 else h - 240),
                   HslChannel(v1, v2, h),
                   HslChannel(v1, v2, if h >= 120 then h - 120 else h + 240))
  }

  /** Channels of an HSL colour never reach the clamp of `make_color_rgb`. */
  lemma {:induction false} HslChannelsInRange(x: nat)
    requires x <= 600000
    ensures Scale(x) <= 255 && x * 255 < TWO_TO_THE_32
  {
    assert x * 255 <= 600000 * 255;
  }

  /** Hues are taken modulo 360: hue h and hue h % 360 give the same colour. */
  lemma {:induction false} HslHuePeriodic(hue: u32, saturation: u32, lightness: u32)
    ensures MakeColorHsl(hue, saturation, lightness) == MakeColorHsl(hue % 360, saturation, lightness)
  {
    if hue <= 359 {
      assert hue % 360 == hue;
    } else {
      assert (hue % 360) % 360 == hue % 360;
    }
  }

  /** Saturation and lightness above 100 behave as 100. */
  lemma {:induction false} HslClamps(hue: u32, saturation: u32, lightness: u32)
    ensures MakeColorHsl(hue, saturation, lightness)
         == MakeColorHsl(hue, if saturation > 100 then 100 else saturation,
                              if lightness > 100 then 100 else lightness)
  {
  }
}
