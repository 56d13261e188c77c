/** The colour value types: 8-bit RGB and ARGB channels, HSB and AHSB
    components in [0, 1], and AHSL with a hue in degrees. Every constructor
    normalises its inputs: channels and components are clamped, hues wrap. */
module Colors {
  import opened Wrappers
  import opened MathUtils

  /** The largest channel value of the RGB types. */
  const ChannelMax: int := 255

  datatype ColorRGB = ColorRGB(red: int, green: int, blue: int)

  predicate ChannelInRange(v: int) {
    0 <= v <= ChannelMax
  }

  predicate ValidRGB(c: ColorRGB) {
    ChannelInRange(c.red) && ChannelInRange(c.green) && ChannelInRange(c.blue)
  }

  /** One channel clamped into [0, 255]: values in range are kept, values
      outside go to the nearer bound. */
  function ClampChannel(v: int): (r: int)
    ensures ChannelInRange(r)
    ensures ChannelInRange(v) ==> r == v
    ensures v < 0 ==> r == 0
    ensures v > ChannelMax ==> r == ChannelMax
  {
    ClampInt(v, 0, ChannelMax)
  }

  /** The `ColorRGB` constructor. */
  function MakeRGB(r: int, g: int, b: int): (c: ColorRGB)
    ensures ValidRGB(c)
    ensures ChannelInRange(r) && ChannelInRange(g) && ChannelInRange(b) ==> c == ColorRGB(r, g, b)
  {
    ColorRGB(ClampChannel(r), ClampChannel(g), ClampChannel(b))
  }

  /** Constructing from the channels of a valid colour gives it back. */
  lemma MakeRGBOfValid(c: ColorRGB)
    requires ValidRGB(c)
    ensures MakeRGB(c.red, c.green, c.blue) == c
  {
  }

  const WhiteRGB: ColorRGB := MakeRGB(ChannelMax, ChannelMax, ChannelMax)
  const BlackRGB: ColorRGB := MakeRGB(0, 0, 0)

  /** `IsDifferent`: a missing colour is different; otherwise the same object
      is not, and then red, blue and green are compared in that order. */
  function IsDifferent(c: ColorRGB, other: Option<ColorRGB>): (r: bool)
    ensures other.None? ==> r
    ensures other.Some? ==> (r <==> c != other.value)
  {
    match other
    case None => true
    case Some(o) =>
      if o == c then false
      else if c.red != o.red then true
      else if c.blue != o.blue then true
      else if c.green != o.green then true
      else false
  }

  /** A colour is never different from itself. */
  lemma IsDifferentIrreflexive(c: ColorRGB)
    ensures !IsDifferent(c, Some(c))
    ensures IsDifferent(c, None)
  {
  }

  /** The first step of `HueToRgb`: `t` moved once into [0, 1]. */
  function WrapHue(t: real): (t2: real)
    ensures -1.0 <= t <= 2.0 ==> 0.0 <= t2 <= 1.0
    ensures 0.0 <= t <= 1.0 ==> t2 == t
    ensures t2 == t || t2 == t + 1.0 || t2 == t - 1.0
  {
    var t1 := if t < 0.0 then t + 1.0 else t;
    if t1 > 1.0 then t1 - 1.0 else t1
  }

  /** The second step of `HueToRgb`: the piecewise-linear ramp over a wrapped
      `t2` from `p` up to `q`, a plateau at `q`, and back down to `p`. */
  function HueRamp(p: real, q: real, t2: real): (r: real)
    ensures 0.0 <= t2 ==> Min(p, q) <= r <= Max(p, q)
    ensures 2.0 / 3.0 <= t2 ==> r == p
  {
    var r :=
      if t2 < 1.0 / 6.0 then p + (q - p) * (6.0 * t2)
      else if t2 < 1.0 / 2.0 then q
      else if t2 < 2.0 / 3.0 then p + (q - p) * ((2.0 / 3.0 - t2) * 6.0)
      else p;
    assert 0.0 <= t2 ==> Min(p, q) <= r <= Max(p, q) by {
      if 0.0 <= t2 {
        if t2 < 1.0 / 6.0 {
          RampBetween(p, q, 6.0 * t2);
        } else if 1.0 / 2.0 <= t2 < 2.0 / 3.0 {
          RampBetween(p, q, (2.0 / 3.0 - t2) * 6.0);
        }
      }
    }
    r
  }

  /** `HueToRgb`: wrap `t` once into [0, 1], then read the ramp. */
  function HueToRgb(p: real, q: real, t: real): (r: real)
    ensures -1.0 <= t <= 2.0 ==> Min(p, q) <= r <= Max(p, q)
  {
    HueRamp(p, q, WrapHue(t))
  }

  /** `p + (q - p) * s` for `s` in [0, 1] lies between `p` and `q`. */
  lemma RampBetween(p: real, q: real, s: real)
    requires 0.0 <= s <= 1.0
    ensures Min(p, q) <= p + (q - p) * s <= Max(p, q)
  {
    if p <= q {
      FractionOf(s, q - p, (q - p) * s);
    } else {
      FractionOf(s, p - q, (p - q) * s);
      assert (q - p) * s == -((p - q) * s);
    }
  }

  /** A fraction `s` in [0, 1] of a non-negative `w` lies in [0, w]. */
  lemma FractionOf(s: real, w: real, sw: real)
    requires 0.0 <= s <= 1.0 && w >= 0.0 && sw == w * s
    ensures 0.0 <= sw <= w
  {
    assert w - sw == w * (1.0 - s);
  }

  /** The ramp has period one over the range the conversion uses. */
  lemma HueToRgbPeriodic(p: real, q: real, t: real)
    requires -1.0 <= t <= 1.0
    ensures HueToRgb(p, q, t + 1.0) == HueToRgb(p, q, t)
  {
    var a, b := WrapHue(t + 1.0), WrapHue(t);
    if a != b {
      WrapOneApart(a, b, t);
      assert HueRamp(p, q, 0.0) == p;
    }
  }

  /** Two wraps of values one apart differ only when they are 0 and 1. */
  lemma WrapOneApart(a: real, b: real, t: real)
    requires -1.0 <= t <= 1.0 && a == WrapHue(t + 1.0) && b == WrapHue(t) && a != b
    ensures (a == 1.0 && b == 0.0) || (a == 0.0 && b == 1.0)
  {
  }

  datatype ColorHSB = ColorHSB(hue: real, saturation: real, brightness: real)

  predicate UnitInterval(v: real) {
    0.0 <= v <= 1.0
  }

  predicate ValidHSB(c: ColorHSB) {
    0.0 <= c.hue < 1.0 && UnitInterval(c.saturation) && UnitInterval(c.brightness)
  }

  /** The `ColorHSB` constructor: the hue wraps into [0, 1) by a whole number
      of turns, saturation and brightness are clamped. */
  function MakeHSB(hue: real, sat: real, bri: real): (c: ColorHSB)
    ensures ValidHSB(c)
    ensures IsIntegral(c.hue - hue)
    ensures 0.0 <= hue < 1.0 ==> c.hue == hue
    ensures UnitInterval(sat) ==> c.saturation == sat
    ensures UnitInterval(bri) ==> c.brightness == bri
  {
    var h := ForcePositiveModuloUnit(hue);
    assert 0.0 <= hue < 1.0 ==> h == hue by {
      if 0.0 <= hue < 1.0 { ForcePositiveModuloUnitIdentity(hue); }
    }
    ColorHSB(h, ClampUnit(sat), ClampUnit(bri))
  }

  /** Re-constructing a valid colour changes nothing. */
  lemma MakeHSBOfValid(c: ColorHSB)
    requires ValidHSB(c)
    ensures MakeHSB(c.hue, c.saturation, c.brightness) == c
  {
  }

  /** The constructor is idempotent. */
  lemma MakeHSBIdempotent(hue: real, sat: real, bri: real)
    ensures var c := MakeHSB(hue, sat, bri); MakeHSB(c.hue, c.saturation, c.brightness) == c
  {
    MakeHSBOfValid(MakeHSB(hue, sat, bri));
  }

  /** `SetBrightness`: a new colour with the brightness replaced (clamped). */
  function SetBrightness(c: ColorHSB, brightness: real): (r: ColorHSB)
    requires ValidHSB(c)
    ensures ValidHSB(r)
    ensures r.hue == c.hue && r.saturation == c.saturation
    ensures r.brightness == ClampUnit(brightness)
  {
    MakeHSB(c.hue, c.saturation, brightness)
  }

  /** `SetSaturation`: a new colour with the saturation replaced (clamped). */
  function SetSaturation(c: ColorHSB, saturation: real): (r: ColorHSB)
    requires ValidHSB(c)
    ensures ValidHSB(r)
    ensures r.hue == c.hue && r.brightness == c.brightness
    ensures r.saturation == ClampUnit(saturation)
  {
    MakeHSB(c.hue, saturation, c.brightness)
  }

  /** A channel of a valid colour as a fraction of 255. */
  function Normalised(v: int): (r: real)
    requires ChannelInRange(v)
    ensures UnitInterval(r)
    ensures r * 255.0 == v as real
  {
    v as real / 255.0
  }

  function Min3(a: real, b: real, c: real): real { Min(Min(a, b), c) }
  function Max3(a: real, b: real, c: real): real { Max(Max(a, b), c) }

  /** The hue of `FromRGB` before the constructor wraps it: a sixth of a turn
      per unit of the channel difference over `delta`, offset by a third of a
      turn for green and two thirds for blue, then moved once into [0, 1]. */
  function RawHue(r: real, g: real, b: real, delta: real): (h: real)
    requires delta > 0.0
  {
    var mx := Max3(r, g, b);
    var hue :=
      if r == mx then ((g - b) / 6.0) / delta
      else if g == mx then 1.0 / 3.0 + ((b - r) / 6.0) / delta
      else 2.0 / 3.0 + ((r - g) / 6.0) / delta;
    var hue1 := if hue < 0.0 then hue + 1.0 else hue;
    if hue1 > 1.0 then hue1 - 1.0 else hue1
  }

  /** `ColorHSB.FromRGB`: brightness is the mean of the largest and smallest
      normalised channel, saturation their difference relative to the
      brightness, and a grey has hue and saturation zero. */
  function FromRGB(rgb: ColorRGB): (c: ColorHSB)
    requires ValidRGB(rgb)
    ensures ValidHSB(c)
    ensures var r, g, b := Normalised(rgb.red), Normalised(rgb.green), Normalised(rgb.blue);
      c.brightness == (Max3(r, g, b) + Min3(r, g, b)) / 2.0
  {
    var r, g, b := Normalised(rgb.red), Normalised(rgb.green), Normalised(rgb.blue);
    var mn, mx := Min3(r, g, b), Max3(r, g, b);
    var delta := mx - mn;
    var bri := (mx + mn) / 2.0;
    if delta == 0.0 then MakeHSB(0.0, 0.0, bri)
    else
      var sat := if bri <= 0.5 then delta / (mx + mn) else delta / (2.0 - mx - mn);
      MakeHSB(RawHue(r, g, b, delta), sat, bri)
  }

  /** A grey has hue 0, saturation 0 and brightness channel / 255. */
  lemma FromRGBGrey(v: int)
    requires ChannelInRange(v)
    ensures FromRGB(ColorRGB(v, v, v)) == ColorHSB(0.0, 0.0, Normalised(v))
  {
  }

  /** Pure red, green and blue sit at 0, 1/3 and 2/3 of the hue circle, fully
      saturated at brightness one half. */
  lemma FromRGBPrimaries()
    ensures FromRGB(ColorRGB(255, 0, 0)) == ColorHSB(0.0, 1.0, 0.5)
    ensures FromRGB(ColorRGB(0, 255, 0)) == ColorHSB(1.0 / 3.0, 1.0, 0.5)
    ensures FromRGB(ColorRGB(0, 0, 255)) == ColorHSB(2.0 / 3.0, 1.0, 0.5)
  {
    assert Normalised(255) == 1.0 && Normalised(0) == 0.0;
    assert RawHue(1.0, 0.0, 0.0, 1.0) == 0.0;
    assert RawHue(0.0, 1.0, 0.0, 1.0) == 1.0 / 3.0;
    assert RawHue(0.0, 0.0, 1.0, 1.0) == 2.0 / 3.0;
  }

  /** A fraction scaled to a channel and truncated toward zero, as the
      `(int)(v * MaxValue)` casts do; a fraction in [0, 1] lands in range. */
  function ToChannel(v: real): (r: int)
    ensures UnitInterval(v) ==> ChannelInRange(r)
    ensures UnitInterval(v) ==> r as real <= v * 255.0 < r as real + 1.0
  {
    assert UnitInterval(v) ==> 0.0 <= v * 255.0 <= 255.0 by {
      if UnitInterval(v) { FractionOf(v, 255.0, v * 255.0); }
    }
    Trunc(v * 255.0)
  }

  /** The upper level `q` of the `HueToRgb` ramp for a saturated colour; the
      lower level is `2 * brightness - q`. */
  function UpperLevel(bri: real, sat: real): real {
    if bri < 0.5 then bri * (1.0 + sat) else bri + sat - bri * sat
  }

  /** `ColorRGB.FromHSB`: a grey when saturation is zero, otherwise the three
      channels read off `HueToRgb` a third of a turn apart. */
  function FromHSB(hsb: ColorHSB): (c: ColorRGB)
    ensures ValidRGB(c)
    ensures hsb.saturation == 0.0 ==> c.red == c.green == c.blue
    ensures hsb.saturation == 0.0 && UnitInterval(hsb.brightness) ==> c.red == ToChannel(hsb.brightness)
  {
    if hsb.saturation == 0.0 then
      var v := ToChannel(hsb.brightness);
      MakeRGB(v, v, v)
    else
      var q := UpperLevel(hsb.brightness, hsb.saturation);
      var p := 2.0 * hsb.brightness - q;
      MakeRGB(ToChannel(HueToRgb(p, q, hsb.hue + 1.0 / 3.0)),
              ToChannel(HueToRgb(p, q, hsb.hue)),
              ToChannel(HueToRgb(p, q, hsb.hue - 1.0 / 3.0)))
  }

  /** The implicit conversion of an HSB colour to ARGB: opaque. */
  function HSBToARGB(hsb: ColorHSB): (c: ColorARGB)
    ensures ValidARGB(c) && c.alpha == ChannelMax
    ensures c.color == FromHSB(hsb)
  {
    MakeARGBFrom(ChannelMax, FromHSB(hsb))
  }

  datatype ColorARGB = ColorARGB(alpha: int, color: ColorRGB)

  predicate ValidARGB(c: ColorARGB) {
    ChannelInRange(c.alpha) && ValidRGB(c.color)
  }

  /** `ColorARGB(alpha, red, green, blue)`: every channel is clamped. */
  function MakeARGB(alpha: int, red: int, green: int, blue: int): (c: ColorARGB)
    ensures ValidARGB(c)
    ensures ChannelInRange(alpha) ==> c.alpha == alpha
    ensures c.color == MakeRGB(red, green, blue)
  {
    ColorARGB(ClampChannel(alpha), MakeRGB(red, green, blue))
  }

  /** `ColorARGB(alpha, color)`: the colour's channels go through the base
      constructor again, which keeps a valid colour unchanged. */
  function MakeARGBFrom(alpha: int, color: ColorRGB): (c: ColorARGB)
    ensures ValidARGB(c)
    ensures ChannelInRange(alpha) ==> c.alpha == alpha
    ensures ValidRGB(color) ==> c.color == color
  {
    ColorARGB(ClampChannel(alpha), MakeRGB(color.red, color.green, color.blue))
  }

  /** The two constructors agree. */
  lemma MakeARGBConstructorsAgree(alpha: int, red: int, green: int, blue: int)
    ensures MakeARGBFrom(alpha, MakeRGB(red, green, blue)) == MakeARGB(alpha, red, green, blue)
  {
  }

  const Transparent: ColorARGB := MakeARGB(0, 0, 0, 0)
  const WhiteARGB: ColorARGB := MakeARGBFrom(ChannelMax, WhiteRGB)
  const BlackARGB: ColorARGB := MakeARGBFrom(ChannelMax, BlackRGB)

  lemma NamedColors()
    ensures Transparent == ColorARGB(0, ColorRGB(0, 0, 0))
    ensures WhiteARGB == ColorARGB(255, ColorRGB(255, 255, 255))
    ensures BlackARGB == ColorARGB(255, ColorRGB(0, 0, 0))
  {
  }

  /** `ColorARGB.IsDifferent`: a missing colour is different, then a
      different alpha, then the RGB comparison decides. */
  function IsDifferentARGB(c: ColorARGB, other: Option<ColorARGB>): (r: bool)
    ensures other.None? ==> r
    ensures other.Some? ==> (r <==> c != other.value)
    ensures other.Some? && other.value.alpha == c.alpha ==> r == IsDifferent(c.color, Some(other.value.color))
  {
    match other
    case None => true
    case Some(o) =>
      if c.alpha != o.alpha then true
      else IsDifferent(c.color, Some(o.color))
  }

  datatype ColorAHSB = ColorAHSB(alpha: real, color: ColorHSB)

  predicate ValidAHSB(c: ColorAHSB) {
    UnitInterval(c.alpha) && ValidHSB(c.color)
  }

  /** `ColorAHSB(alpha, hue, sat, bri)`. */
  function MakeAHSB(alpha: real, hue: real, sat: real, bri: real): (c: ColorAHSB)
    ensures ValidAHSB(c)
    ensures c.alpha == ClampUnit(alpha)
    ensures c.color == MakeHSB(hue, sat, bri)
  {
    ColorAHSB(ClampUnit(alpha), MakeHSB(hue, sat, bri))
  }

  /** `ColorAHSB(alpha, color)`: a valid colour passes through unchanged. */
  function MakeAHSBFrom(alpha: real, color: ColorHSB): (c: ColorAHSB)
    ensures ValidAHSB(c)
    ensures c.alpha == ClampUnit(alpha)
    ensures ValidHSB(color) ==> c.color == color
  {
    assert ValidHSB(color) ==> MakeHSB(color.hue, color.saturation, color.brightness) == color by {
      if ValidHSB(color) { MakeHSBOfValid(color); }
    }
    MakeAHSB(alpha, color.hue, color.saturation, color.brightness)
  }

  /** `SetAlpha`: only the alpha changes. */
  function SetAlpha(c: ColorAHSB, alpha: real): (r: ColorAHSB)
    requires ValidAHSB(c)
    ensures ValidAHSB(r)
    ensures r.color == c.color
    ensures r.alpha == ClampUnit(alpha)
  {
    MakeHSBOfValid(c.color);
    MakeAHSB(alpha, c.color.hue, c.color.saturation, c.color.brightness)
  }

  /** Setting the alpha twice keeps only the second. */
  lemma SetAlphaTwice(c: ColorAHSB, a: real, b: real)
    requires ValidAHSB(c)
    ensures SetAlpha(SetAlpha(c, a), b) == SetAlpha(c, b)
  {
  }

  /** The implicit conversion to ARGB: the alpha becomes `(int)(alpha * 255)`
      and the colour goes through `FromHSB`. */
  function AHSBToARGB(c: ColorAHSB): (r: ColorARGB)
    requires ValidAHSB(c)
    ensures ValidARGB(r)
    ensures r.alpha == ToChannel(c.alpha)
    ensures r.alpha as real <= c.alpha * 255.0 < r.alpha as real + 1.0
    ensures r.color == FromHSB(c.color)
  {
    MakeARGBFrom(ToChannel(c.alpha), FromHSB(c.color))
  }

  /** Hue in whole degrees, saturation and lightness in whole percent. */
  datatype ColorAHSL = ColorAHSL(alpha: real, hue: int, saturation: int, lightness: int)

  predicate ValidAHSL(c: ColorAHSL) {
    UnitInterval(c.alpha) && 0 <= c.hue < 360 && 0 <= c.saturation <= 100 && 0 <= c.lightness <= 100
  }

  /** `ColorAHSL(alpha, hue, saturation, lightness)`: the hue wraps into
      [0, 360), the rest is clamped. */
  function MakeAHSL(alpha: real, hue: int, saturation: int, lightness: int): (c: ColorAHSL)
    ensures ValidAHSL(c)
    ensures (c.hue - hue) % 360 == 0
    ensures 0 <= saturation <= 100 ==> c.saturation == saturation
    ensures 0 <= lightness <= 100 ==> c.lightness == lightness
    ensures UnitInterval(alpha) ==> c.alpha == alpha
  {
    var h := ForcePositiveModulo(hue, 360);
    HueCongruent(hue, h);
    ColorAHSL(ClampUnit(alpha), h, ClampInt(saturation, 0, 100), ClampInt(lightness, 0, 100))
  }

  /** A remainder is congruent to its dividend. */
  lemma HueCongruent(hue: int, h: int)
    requires h == hue % 360
    ensures (h - hue) % 360 == 0
  {
    var k := hue / 360;
    assert h - hue == -k * 360;
    DivModUnique(h - hue, 360, -k, 0);
  }

  /** `ColorAHSL(hue, saturation, lightness)`: the same normalisation with
      alpha exactly 1. */
  function MakeHSL(hue: int, saturation: int, lightness: int): (c: ColorAHSL)
    ensures c == MakeAHSL(1.0, hue, saturation, lightness)
    ensures c.alpha == 1.0
  {
    ColorAHSL(1.0, ForcePositiveModulo(hue, 360), ClampInt(saturation, 0, 100), ClampInt(lightness, 0, 100))
  }

  /** Re-constructing a valid colour changes nothing. */
  lemma MakeAHSLOfValid(c: ColorAHSL)
    requires ValidAHSL(c)
    ensures MakeAHSL(c.alpha, c.hue, c.saturation, c.lightness) == c
  {
  }

  /** 360 degrees wrap to 0, and -30 to 330. */
  lemma HueWrapExamples()
    ensures MakeHSL(360, 50, 50).hue == 0
    ensures MakeHSL(-30, 50, 50).hue == 330
    ensures MakeHSL(200, 150, -5) == ColorAHSL(1.0, 200, 100, 0)
  {
  }
}
