/** The RGB to HSB conversion and back. `FromRGB` computes the lightness-style
    brightness, saturation and hue of a colour, and `FromHSB` rebuilds the
    channels from them. Over exact arithmetic this is lossless: every valid
    colour survives the round trip. The proof goes by the six sectors of the
    hue circle, fixed by which channel is largest and which is smallest. */
module ColorConversion {
  import opened MathUtils
  import opened Colors

  /** A channel difference `x` over six times the spread `d`: the fraction
      of a turn that the hue moves inside one sector. */
  lemma SixthOver(x: real, d: real, u: real)
    requires d > 0.0 && u == (x / 6.0) / d
    ensures d * (6.0 * u) == x
    ensures 0.0 <= x <= d ==> 0.0 <= u <= 1.0 / 6.0
    ensures -d <= x < 0.0 ==> -1.0 / 6.0 <= u < 0.0
    ensures 0.0 <= x < d ==> u < 1.0 / 6.0
    ensures -d < x ==> -1.0 / 6.0 < u
  {
    assert u * d == x / 6.0;
    assert d * (6.0 * u) == 6.0 * (u * d);
    if 0.0 <= x {
      assert u >= 0.0;
    } else {
      assert u < 0.0;
    }
    if x <= d {
      assert 6.0 * u * d <= d;
      assert u <= 1.0 / 6.0;
    }
    if -d <= x {
      assert -d <= 6.0 * u * d;
      assert -1.0 / 6.0 <= u;
    }
    if x < d {
      assert 6.0 * u * d < d;
    }
    if -d < x {
      assert -d < 6.0 * u * d;
    }
  }

  /** Red largest, blue smallest: the hue is in [0, 1/6]. */
  lemma SectorRedGreen(r: real, g: real, b: real)
    requires 0.0 <= b <= g <= r <= 1.0 && b < r
    ensures var h := RawHue(r, g, b, r - b);
      && 0.0 <= h < 1.0
      && HueToRgb(b, r, h + 1.0 / 3.0) == r
      && HueToRgb(b, r, h) == g
      && HueToRgb(b, r, h - 1.0 / 3.0) == b
  {
    var d := r - b;
    var u := ((g - b) / 6.0) / d;
    SixthOver(g - b, d, u);
    assert RawHue(r, g, b, d) == u;
    if u == 1.0 / 6.0 {
      assert g - b == d;
    }
  }

  /** Red largest, green smallest: the hue is in [5/6, 1). */
  lemma SectorRedBlue(r: real, g: real, b: real)
    requires 0.0 <= g < b <= r <= 1.0
    ensures var h := RawHue(r, g, b, r - g);
      && 0.0 <= h < 1.0
      && HueToRgb(g, r, h + 1.0 / 3.0) == r
      && HueToRgb(g, r, h) == g
      && HueToRgb(g, r, h - 1.0 / 3.0) == b
  {
    var d := r - g;
    var u := ((g - b) / 6.0) / d;
    SixthOver(g - b, d, u);
    assert RawHue(r, g, b, d) == u + 1.0;
  }

  /** Green largest, red smallest: the hue is in [1/3, 1/2]. */
  lemma SectorGreenBlue(r: real, g: real, b: real)
    requires 0.0 <= r <= b <= g <= 1.0 && r < g
    ensures var h := RawHue(r, g, b, g - r);
      && 0.0 <= h < 1.0
      && HueToRgb(r, g, h + 1.0 / 3.0) == r
      && HueToRgb(r, g, h) == g
      && HueToRgb(r, g, h - 1.0 / 3.0) == b
  {
    var d := g - r;
    var u := ((b - r) / 6.0) / d;
    SixthOver(b - r, d, u);
    assert RawHue(r, g, b, d) == 1.0 / 3.0 + u;
    if u == 1.0 / 6.0 {
      assert b - r == d;
    }
  }

  /** Green largest, blue smallest: the hue is in (1/6, 1/3). */
  lemma SectorGreenRed(r: real, g: real, b: real)
    requires 0.0 <= b < r < g <= 1.0
    ensures var h := RawHue(r, g, b, g - b);
      && 0.0 <= h < 1.0
      && HueToRgb(b, g, h + 1.0 / 3.0) == r
      && HueToRgb(b, g, h) == g
      && HueToRgb(b, g, h - 1.0 / 3.0) == b
  {
    var d := g - b;
    var u := ((b - r) / 6.0) / d;
    SixthOver(b - r, d, u);
    assert RawHue(r, g, b, d) == 1.0 / 3.0 + u;
  }

  /** Blue largest, green smallest: the hue is in [2/3, 5/6). */
  lemma SectorBlueRed(r: real, g: real, b: real)
    requires 0.0 <= g <= r < b <= 1.0
    ensures var h := RawHue(r, g, b, b - g);
      && 0.0 <= h < 1.0
      && HueToRgb(g, b, h + 1.0 / 3.0) == r
      && HueToRgb(g, b, h) == g
      && HueToRgb(g, b, h - 1.0 / 3.0) == b
  {
    var d := b - g;
    var u := ((r - g) / 6.0) / d;
    SixthOver(r - g, d, u);
    assert RawHue(r, g, b, d) == 2.0 / 3.0 + u;
  }

  /** Blue largest, red smallest: the hue is in (1/2, 2/3). */
  lemma SectorBlueGreen(r: real, g: real, b: real)
    requires 0.0 <= r < g < b <= 1.0
    ensures var h := RawHue(r, g, b, b - r);
      && 0.0 <= h < 1.0
      && HueToRgb(r, b, h + 1.0 / 3.0) == r
      && HueToRgb(r, b, h) == g
      && HueToRgb(r, b, h - 1.0 / 3.0) == b
  {
    var d := b - r;
    var u := ((r - g) / 6.0) / d;
    SixthOver(r - g, d, u);
    assert RawHue(r, g, b, d) == 2.0 / 3.0 + u;
  }

  /** The saturation `FromRGB` derives from the largest and smallest channel
      makes `FromHSB` recover exactly those two as its ramp levels. */
  lemma SaturationInverse(mx: real, mn: real, bri: real, sat: real)
    requires 0.0 <= mn < mx <= 1.0 && bri == (mx + mn) / 2.0
    requires sat == if bri <= 0.5 then (mx - mn) / (mx + mn) else (mx - mn) / (2.0 - mx - mn)
    ensures 0.0 < sat <= 1.0
    ensures UpperLevel(bri, sat) == mx
    ensures 2.0 * bri - UpperLevel(bri, sat) == mn
  {
    if bri <= 0.5 {
      RatioAtMostOne(mx - mn, mx + mn, sat);
      if bri < 0.5 {
        assert bri * (1.0 + sat) == bri + sat * (mx + mn) / 2.0;
      } else {
        assert sat * 1.0 == mx - mn;
      }
    } else {
      RatioAtMostOne(mx - mn, 2.0 - mx - mn, sat);
      assert bri + sat - bri * sat == bri + sat * (2.0 - mx - mn) / 2.0;
    }
  }

  /** A positive `d` over a denominator no smaller than it. */
  lemma RatioAtMostOne(d: real, s: real, q: real)
    requires 0.0 < d <= s && q == d / s
    ensures 0.0 < q <= 1.0 && q * s == d
  {
    if q > 1.0 {
      MulLess(1.0, q, s);
    }
  }

  /** A channel scaled to a fraction and back, with the truncating cast. */
  lemma ChannelRoundTrip(v: int)
    requires ChannelInRange(v)
    ensures ToChannel(Normalised(v)) == v
  {
  }

  /** Every valid colour survives the conversion to HSB and back, over exact
      arithmetic; rounding in the program can lose a unit. */
  lemma RGBRoundTrip(c: ColorRGB)
    requires ValidRGB(c)
    ensures FromHSB(FromRGB(c)) == c
  {
    var r, g, b := Normalised(c.red), Normalised(c.green), Normalised(c.blue);
    if Max3(r, g, b) - Min3(r, g, b) == 0.0 {
      GreyRoundTrip(c, r, g, b);
    } else {
      FromRGBSaturated(c, r, g, b);
      FractionsRoundTrip(r, g, b);
      ChannelRoundTrip(c.red);
      ChannelRoundTrip(c.green);
      ChannelRoundTrip(c.blue);
    }
  }

  /** A colour whose channels are all equal comes back as itself. */
  lemma GreyRoundTrip(c: ColorRGB, r: real, g: real, b: real)
    requires ValidRGB(c)
    requires r == Normalised(c.red) && g == Normalised(c.green) && b == Normalised(c.blue)
    requires Max3(r, g, b) - Min3(r, g, b) == 0.0
    ensures FromHSB(FromRGB(c)) == c
  {
    assert r == g == b;
    assert c.red == c.green == c.blue;
    assert FromRGB(c) == ColorHSB(0.0, 0.0, r);
    ChannelRoundTrip(c.red);
  }

  /** `FromRGB` of a colour whose channels are not all equal, converted back,
      is what `Rebuilt` makes of its normalised channels. */
  lemma FromRGBSaturated(c: ColorRGB, r: real, g: real, b: real)
    requires ValidRGB(c)
    requires r == Normalised(c.red) && g == Normalised(c.green) && b == Normalised(c.blue)
    requires Max3(r, g, b) - Min3(r, g, b) > 0.0
    ensures FromHSB(FromRGB(c)) == Rebuilt(r, g, b)
  {
  }

  /** The colour `FromHSB` rebuilds from the hue, saturation and brightness
      that `FromRGB` derives from fractions not all equal. */
  function Rebuilt(r: real, g: real, b: real): ColorRGB
    requires UnitInterval(r) && UnitInterval(g) && UnitInterval(b)
    requires Max3(r, g, b) - Min3(r, g, b) > 0.0
  {
    var mn, mx := Min3(r, g, b), Max3(r, g, b);
    var bri := (mx + mn) / 2.0;
    var sat := if bri <= 0.5 then (mx - mn) / (mx + mn) else (mx - mn) / (2.0 - mx - mn);
    FromHSB(MakeHSB(RawHue(r, g, b, mx - mn), sat, bri))
  }

  /** Fractions not all equal come back from the hue, saturation and
      brightness `FromRGB` derives from them, up to the truncating cast. */
  lemma FractionsRoundTrip(r: real, g: real, b: real)
    requires UnitInterval(r) && UnitInterval(g) && UnitInterval(b)
    requires Max3(r, g, b) - Min3(r, g, b) > 0.0
    ensures Rebuilt(r, g, b) == MakeRGB(ToChannel(r), ToChannel(g), ToChannel(b))
  {
    var mx := Max3(r, g, b);
    if r == mx {
      RedLargest(r, g, b);
    } else if g == mx {
      GreenLargest(r, g, b);
    } else {
      BlueLargest(r, g, b);
    }
  }

  lemma RedLargest(r: real, g: real, b: real)
    requires UnitInterval(r) && UnitInterval(g) && UnitInterval(b)
    requires Max3(r, g, b) - Min3(r, g, b) > 0.0 && r == Max3(r, g, b)
    ensures Rebuilt(r, g, b) == MakeRGB(ToChannel(r), ToChannel(g), ToChannel(b))
  {
    var mn := Min3(r, g, b);
    if g >= b {
      SectorRedGreen(r, g, b);
      SectorRebuilt(r, g, b, RawHue(r, g, b, r - mn), r, mn);
    } else {
      SectorRedBlue(r, g, b);
      SectorRebuilt(r, g, b, RawHue(r, g, b, r - mn), r, mn);
    }
  }

  lemma GreenLargest(r: real, g: real, b: real)
    requires UnitInterval(r) && UnitInterval(g) && UnitInterval(b)
    requires Max3(r, g, b) - Min3(r, g, b) > 0.0 && r != Max3(r, g, b) && g == Max3(r, g, b)
    ensures Rebuilt(r, g, b) == MakeRGB(ToChannel(r), ToChannel(g), ToChannel(b))
  {
    var mn := Min3(r, g, b);
    if r <= b {
      SectorGreenBlue(r, g, b);
      SectorRebuilt(r, g, b, RawHue(r, g, b, g - mn), g, mn);
    } else {
      SectorGreenRed(r, g, b);
      SectorRebuilt(r, g, b, RawHue(r, g, b, g - mn), g, mn);
    }
  }

  lemma BlueLargest(r: real, g: real, b: real)
    requires UnitInterval(r) && UnitInterval(g) && UnitInterval(b)
    requires Max3(r, g, b) - Min3(r, g, b) > 0.0 && r != Max3(r, g, b) && g != Max3(r, g, b)
    ensures Rebuilt(r, g, b) == MakeRGB(ToChannel(r), ToChannel(g), ToChannel(b))
  {
    var mn := Min3(r, g, b);
    if g <= r {
      SectorBlueRed(r, g, b);
      SectorRebuilt(r, g, b, RawHue(r, g, b, b - mn), b, mn);
    } else {
      SectorBlueGreen(r, g, b);
      SectorRebuilt(r, g, b, RawHue(r, g, b, b - mn), b, mn);
    }
  }

  /** Once a sector fixes the hue, `Rebuilt` reproduces the fractions. */
  lemma SectorRebuilt(r: real, g: real, b: real, h: real, mx: real, mn: real)
    requires UnitInterval(r) && UnitInterval(g) && UnitInterval(b)
    requires mx == Max3(r, g, b) && mn == Min3(r, g, b) && mx - mn > 0.0
    requires h == RawHue(r, g, b, mx - mn) && 0.0 <= h < 1.0
    requires HueToRgb(mn, mx, h + 1.0 / 3.0) == r
    requires HueToRgb(mn, mx, h) == g
    requires HueToRgb(mn, mx, h - 1.0 / 3.0) == b
    ensures Rebuilt(r, g, b) == MakeRGB(ToChannel(r), ToChannel(g), ToChannel(b))
  {
    HSBChannels(h, mx, mn, r, g, b);
  }

  /** `FromHSB` of a colour whose hue, spread and brightness reproduce the
      fractions `r`, `g`, `b` through `HueToRgb`. */
  lemma HSBChannels(h: real, mx: real, mn: real, r: real, g: real, b: real)
    requires 0.0 <= h < 1.0 && 0.0 <= mn < mx <= 1.0
    requires HueToRgb(mn, mx, h + 1.0 / 3.0) == r
    requires HueToRgb(mn, mx, h) == g
    requires HueToRgb(mn, mx, h - 1.0 / 3.0) == b
    ensures var bri := (mx + mn) / 2.0;
      var sat := if bri <= 0.5 then (mx - mn) / (mx + mn) else (mx - mn) / (2.0 - mx - mn);
      FromHSB(MakeHSB(h, sat, bri)) == MakeRGB(ToChannel(r), ToChannel(g), ToChannel(b))
  {
    var bri := (mx + mn) / 2.0;
    var sat := if bri <= 0.5 then (mx - mn) / (mx + mn) else (mx - mn) / (2.0 - mx - mn);
    SaturationInverse(mx, mn, bri, sat);
    assert MakeHSB(h, sat, bri) == ColorHSB(h, sat, bri);
  }
}
