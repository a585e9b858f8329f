/**
 * The web backend of the gradient mask (the static component): the helpers that
 * turn colours, locations and a direction into a CSS `linear-gradient()` (CSS
 * Images Module Level 3, section 3.1) used as `mask-image` (CSS Masking Module
 * Level 1, section 6.1), and the component's choice of style.
 *
 * Colours are JavaScript numbers holding AARRGGBB integers, or null. The gradient
 * is kept as a structured value (direction keyword and stops) rather than text.
 */
module WebMask {
  import opened Optional
  import opened MaskAlpha

  // ---------------------------------------------------------------------------
  // 32-bit colour arithmetic
  // ---------------------------------------------------------------------------

  predicate IsByte(x: int) { 0 <= x < 0x100 }

  predicate IsUint32(u: int) { 0 <= u < 0x1_0000_0000 }

  /** `n >>> 0` for an integral number: ToUint32, the residue modulo 2^32. */
  function ToUint32(n: int): (u: int)
    ensures IsUint32(u)
    ensures (n - u) % 0x1_0000_0000 == 0
    ensures IsUint32(n) ==> u == n
  {
    n % 0x1_0000_0000
  }

  /** `x >> 8` on a non-negative 32-bit value. */
  function ShiftRight8(x: nat): nat { x / 0x100 }

  /** `(u >> 24) & 0xff`. */
  function AlphaByte(u: int): int
    requires IsUint32(u)
  {
    ShiftRight8(ShiftRight8(ShiftRight8(u))) % 0x100
  }

  /** `(u >> 16) & 0xff`. */
  function RedByte(u: int): int
    requires IsUint32(u)
  {
    ShiftRight8(ShiftRight8(u)) % 0x100
  }

  /** `(u >> 8) & 0xff`. */
  function GreenByte(u: int): int
    requires IsUint32(u)
  {
    ShiftRight8(u) % 0x100
  }

  /** `u & 0xff`. */
  function BlueByte(u: int): int
    requires IsUint32(u)
  {
    u % 0x100
  }

  /**
   * `((a << 24) | (r << 16) | (g << 8) | b) >>> 0` for bytes: the lanes are disjoint,
   * so the `|` are sums, and each byte reads back unchanged.
   */
  function PackArgb(a: int, r: int, g: int, b: int): (u: int)
    requires IsByte(a) && IsByte(r) && IsByte(g) && IsByte(b)
    ensures IsUint32(u)
    ensures AlphaByte(u) == a && RedByte(u) == r && GreenByte(u) == g && BlueByte(u) == b
  {
    var rg := a * 0x100 + r;
    var rgb := rg * 0x100 + g;
    ByteLane(a, r);
    ByteLane(rg, g);
    ByteLane(rgb, b);
    rgb * 0x100 + b
  }

  /** Shifting right by 8 drops the low byte and keeps the rest. */
  lemma ByteLane(high: nat, low: int)
    requires IsByte(low)
    ensures ShiftRight8(high * 0x100 + low) == high
    ensures (high * 0x100 + low) % 0x100 == low
  {
  }

  /** An unsigned colour is determined by its four bytes. */
  lemma RepackArgb(u: int)
    requires IsUint32(u)
    ensures PackArgb(AlphaByte(u), RedByte(u), GreenByte(u), BlueByte(u)) == u
  {
    var q1 := ShiftRight8(u);
    var q2 := ShiftRight8(q1);
    var q3 := ShiftRight8(q2);
    assert u == 0x100 * q1 + u % 0x100;
    assert q1 == 0x100 * q2 + q1 % 0x100;
    assert q2 == 0x100 * q3 + q2 % 0x100;
    assert q3 < 0x100;
  }

  /** `Math.round`: the nearest integer, halves rounded up. */
  function Round(x: real): (n: int)
    ensures x - 0.5 < n as real <= x + 0.5
  {
    (x + 0.5).Floor
  }

  // ---------------------------------------------------------------------------
  // colorToRgba
  // ---------------------------------------------------------------------------

  /** The arguments of a CSS `rgba(r, g, b, a)` colour: bytes for r, g, b and a fraction for a. */
  datatype Rgba = Rgba(r: int, g: int, b: int, a: real)

  const TransparentBlack := Rgba(0, 0, 0, 0.0)

  /**
   * `colorToRgba`: null is transparent black; otherwise r, g, b are bytes 2, 1, 0 of
   * the unsigned value and a is byte 3 over 255, so the four fields give back the colour.
   */
  function ColorToRgba(color: Option<int>): (c: Rgba)
    ensures color.None? ==> c == TransparentBlack
    ensures color.Some? ==>
      var u := ToUint32(color.value);
      && c.r == RedByte(u) && c.g == GreenByte(u) && c.b == BlueByte(u)
      && c.a == AlphaByte(u) as real / 255.0
      && IsByte(c.r) && IsByte(c.g) && IsByte(c.b) && 0.0 <= c.a <= 1.0
      && IsByte(Round(c.a * 255.0))
      && PackArgb(Round(c.a * 255.0), c.r, c.g, c.b) == ToUint32(color.value)
  {
    match color
    case None => TransparentBlack
    case Some(n) =>
      var intValue := ToUint32(n);
      var c := Rgba(RedByte(intValue), GreenByte(intValue), BlueByte(intValue), AlphaByte(intValue) as real / 255.0);
      assert Round(c.a * 255.0) == AlphaByte(intValue);
      RepackArgb(intValue);
      c
  }

  // ---------------------------------------------------------------------------
  // getGradientDirection and buildGradientString
  // ---------------------------------------------------------------------------

  /** The four side keywords `linear-gradient()` is given. */
  predicate IsSideKeyword(keyword: string)
  {
    keyword == "to bottom" || keyword == "to top" || keyword == "to right" || keyword == "to left"
  }

  /** `getGradientDirection`: the CSS keyword pointing away from the named edge; unknown names act as "top". */
  function GradientDirection(direction: string): (keyword: string)
    ensures IsSideKeyword(keyword)
  {
    if direction == "top" then "to bottom"
    else if direction == "bottom" then "to top"
    else if direction == "left" then "to right"
    else if direction == "right" then "to left"
    else "to bottom"
  }

  /** A colour stop: the colour and its position as a percentage of the gradient line. */
  datatype ColorStop = ColorStop(color: Rgba, percent: real)

  /** `linear-gradient(<keyword>, <stop>, <stop>, …)`. */
  datatype LinearGradient = LinearGradient(direction: string, stops: seq<ColorStop>)

  /**
   * Every stop has a position: its location, or the even-spacing fallback, which
   * divides by count − 1 and so needs two stops or more.
   */
  predicate PositionsDefined(count: nat, locations: seq<real>)
  {
    count != 1 || |locations| >= 1
  }

  /** The stop position at `index`: `locations[index] * 100` when present, else `index / (count − 1) * 100`. */
  function StopPercent(locations: seq<real>, index: nat, count: nat): real
    requires index < count && PositionsDefined(count, locations)
  {
    if index < |locations| then locations[index] * 100.0
    else (index as real / (count - 1) as real) * 100.0
  }

  /** `buildGradientString`: the direction keyword, then one stop per colour, in the colours' order. */
  function BuildGradient(colors: seq<Option<int>>, locations: seq<real>, direction: string): (g: LinearGradient)
    requires PositionsDefined(|colors|, locations)
    ensures g.direction == GradientDirection(direction)
    ensures |g.stops| == |colors|
    ensures forall i :: 0 <= i < |colors| ==> g.stops[i].color == ColorToRgba(colors[i])
    ensures forall i :: 0 <= i < |colors| ==> g.stops[i].percent == StopPercent(locations, i, |colors|)
  {
    LinearGradient(
      GradientDirection(direction),
      seq(|colors|, i requires 0 <= i < |colors| => ColorStop(ColorToRgba(colors[i]), StopPercent(locations, i, |colors|))))
  }

  /**
   * Without locations, n >= 2 stops are spread evenly: the first at 0%, the last at
   * 100%, each step (100 / (n − 1))% further along.
   */
  lemma {:induction false} EvenSpacingFallback(count: nat, index: nat)
    requires count >= 2 && index < count
    ensures StopPercent([], 0, count) == 0.0
    ensures StopPercent([], count - 1, count) == 100.0
    ensures index + 1 < count ==>
      StopPercent([], index + 1, count) == StopPercent([], index, count) + 100.0 / (count - 1) as real
  {
    var d := (count - 1) as real;
    assert d / d == 1.0;
    if index + 1 < count {
      assert (index + 1) as real / d == index as real / d + 1.0 / d;
    }
  }

  /** Locations in [0, 1] and the fallback both put every stop within 0%..100%. */
  lemma {:induction false} StopPercentInRange(locations: seq<real>, index: nat, count: nat)
    requires index < count && PositionsDefined(count, locations)
    requires forall k :: 0 <= k < |locations| ==> 0.0 <= locations[k] <= 1.0
    ensures 0.0 <= StopPercent(locations, index, count) <= 100.0
  {
    if index >= |locations| {
      var d := (count - 1) as real;
      assert 0.0 <= index as real <= d;
      var q := index as real / d;
      assert q * d == index as real;
      assert (1.0 - q) * d == d - index as real;
      ProductSign(q, d);
      ProductSign(1.0 - q, d);
    }
  }

  /** A number whose product with a positive number is non-negative is itself non-negative. */
  lemma ProductSign(x: real, d: real)
    requires d > 0.0 && x * d >= 0.0
    ensures x >= 0.0
  {
  }

  // ---------------------------------------------------------------------------
  // adjustColorsForOpacity
  // ---------------------------------------------------------------------------

  const OpaqueBlack: int := 0xff00_0000

  /** The alpha byte written for intensity m: `Math.round((a + (1 − a)(1 − m)) * 255)` with a = alpha / 255. */
  function AdjustedAlpha(alpha: int, maskOpacity: real): int
  {
    var a := alpha as real / 255.0;
    Round((a + (1.0 - a) * (1.0 - maskOpacity)) * 255.0)
  }

  /** Before rounding, the web formula is the intensity blend A·m + 255(1 − m). */
  lemma WebFormulaIsBlend(alpha: int, maskOpacity: real)
    ensures var a := alpha as real / 255.0;
      (a + (1.0 - a) * (1.0 - maskOpacity)) * 255.0 == BlendAlpha(alpha as real, maskOpacity)
  {
    var a := alpha as real / 255.0;
    assert a * 255.0 == alpha as real;
    calc {
      (a + (1.0 - a) * (1.0 - maskOpacity)) * 255.0;
      a * 255.0 + (255.0 - a * 255.0) * (1.0 - maskOpacity);
      alpha as real + (255.0 - alpha as real) * (1.0 - maskOpacity);
      alpha as real * maskOpacity + 255.0 * (1.0 - maskOpacity);
    }
  }

  /**
   * For a byte alpha A and 0 < m < 1 the adjusted alpha is the blend rounded to the
   * nearest integer, at least A and at most 255.
   */
  lemma {:induction false} AdjustedAlphaBounds(alpha: int, maskOpacity: real)
    requires IsByte(alpha) && 0.0 < maskOpacity < 1.0
    ensures BlendAlpha(alpha as real, maskOpacity) - 0.5 < AdjustedAlpha(alpha, maskOpacity) as real
                                                        <= BlendAlpha(alpha as real, maskOpacity) + 0.5
    ensures alpha <= AdjustedAlpha(alpha, maskOpacity) <= 255
  {
    WebFormulaIsBlend(alpha, maskOpacity);
    var x := BlendAlpha(alpha as real, maskOpacity);
    assert alpha as real <= x <= 255.0;
  }

  /**
   * One non-null colour at intensity 0 < m < 1: the unsigned value with r, g, b kept
   * and the alpha byte moved to the nearest integer to A·m + 255(1 − m).
   */
  function AdjustColor(color: int, maskOpacity: real): (adjusted: int)
    requires 0.0 < maskOpacity < 1.0
    ensures IsUint32(adjusted)
    ensures var u := ToUint32(color);
      && RedByte(adjusted) == RedByte(u) && GreenByte(adjusted) == GreenByte(u) && BlueByte(adjusted) == BlueByte(u)
      && AlphaByte(u) <= AlphaByte(adjusted)
      && BlendAlpha(AlphaByte(u) as real, maskOpacity) - 0.5 < AlphaByte(adjusted) as real
      && AlphaByte(adjusted) as real <= BlendAlpha(AlphaByte(u) as real, maskOpacity) + 0.5
  {
    var intValue := ToUint32(color);
    AdjustedAlphaBounds(AlphaByte(intValue), maskOpacity);
    PackArgb(AdjustedAlpha(AlphaByte(intValue), maskOpacity), RedByte(intValue), GreenByte(intValue), BlueByte(intValue))
  }

  /**
   * `adjustColorsForOpacity`: at intensity >= 1 the colours as given; at <= 0 opaque
   * black for every entry; in between each null kept and each colour adjusted.
   */
  function AdjustColorsForOpacity(colors: seq<Option<int>>, maskOpacity: real): (adjusted: seq<Option<int>>)
    ensures |adjusted| == |colors|
    ensures maskOpacity >= 1.0 ==> adjusted == colors
    ensures maskOpacity <= 0.0 ==> forall i :: 0 <= i < |adjusted| ==> adjusted[i] == Some(OpaqueBlack)
    ensures 0.0 < maskOpacity < 1.0 ==> forall i :: 0 <= i < |colors| ==>
      && (adjusted[i].None? <==> colors[i].None?)
      && (colors[i].Some? ==> adjusted[i].value == AdjustColor(colors[i].value, maskOpacity))
  {
    if maskOpacity >= 1.0 then colors
    else if maskOpacity <= 0.0 then seq(|colors|, _ => Some(OpaqueBlack))
    else seq(|colors|, i requires 0 <= i < |colors| =>
                       if colors[i].None? then None else Some(AdjustColor(colors[i].value, maskOpacity)))
  }

  /** At intensity <= 0 every entry has alpha byte 255: the mask would show the content fully. */
  lemma ZeroIntensityIsOpaque(colors: seq<Option<int>>, maskOpacity: real, i: nat)
    requires maskOpacity <= 0.0 && i < |colors|
    ensures AdjustColorsForOpacity(colors, maskOpacity)[i].Some?
    ensures AlphaByte(AdjustColorsForOpacity(colors, maskOpacity)[i].value) == 255
  {
    assert AdjustColorsForOpacity(colors, maskOpacity)[i] == Some(OpaqueBlack);
    var black := PackArgb(255, 0, 0, 0);
    assert black == OpaqueBlack;
  }

  // ---------------------------------------------------------------------------
  // The component's mask style
  // ---------------------------------------------------------------------------

  /** The style properties the component adds: none of them (`{}`) or both mask images and possibly a transition. */
  datatype MaskStyle = MaskStyle(webkitMaskImage: Option<LinearGradient>, maskImage: Option<LinearGradient>, transition: Option<string>)

  const NoMask := MaskStyle(None, None, None)

  /** A prop's value, or its default when it is undefined. */
  function OrDefault<T>(prop: Option<T>, default: T): T
  {
    if prop.Some? then prop.value else default
  }

  /**
   * The `maskStyle` of `GradientMaskView` (defaults: direction "top", intensity 1):
   * no mask at intensity <= 0, otherwise the same gradient of the adjusted colours
   * in both `WebkitMaskImage` and `maskImage`.
   */
  function GradientMaskViewStyle(colors: seq<Option<int>>, locations: seq<real>, direction: Option<string>, maskOpacity: Option<real>): (style: MaskStyle)
    requires OrDefault(maskOpacity, 1.0) > 0.0 ==> PositionsDefined(|colors|, locations)
    ensures style.transition.None?
    ensures OrDefault(maskOpacity, 1.0) <= 0.0 <==> style == NoMask
    ensures OrDefault(maskOpacity, 1.0) > 0.0 ==>
      && style.maskImage.Some? && style.webkitMaskImage == style.maskImage
      && style.maskImage.value.direction == GradientDirection(OrDefault(direction, "top"))
      && |style.maskImage.value.stops| == |colors|
  {
    var m := OrDefault(maskOpacity, 1.0);
    if m <= 0.0 then NoMask
    else
      var gradient := BuildGradient(AdjustColorsForOpacity(colors, m), locations, OrDefault(direction, "top"));
      MaskStyle(Some(gradient), Some(gradient), None)
  }

  function Min1(m: real): real { if m < 1.0 then m else 1.0 }

  /**
   * Each stop of the mask the component applies at intensity m > 0: null colours are
   * transparent black; other colours keep r, g, b, and their alpha (out of 255) is
   * within half a unit of the blend A·min(m, 1) + 255(1 − min(m, 1)), exactly A at m >= 1.
   */
  lemma {:induction false} MaskStopsBlendAlpha(colors: seq<Option<int>>, locations: seq<real>, direction: Option<string>, maskOpacity: real, i: nat)
    requires maskOpacity > 0.0 && PositionsDefined(|colors|, locations) && i < |colors|
    ensures var style := GradientMaskViewStyle(colors, locations, direction, Some(maskOpacity));
      var stop := style.maskImage.value.stops[i];
      && stop.percent == StopPercent(locations, i, |colors|)
      && (colors[i].None? ==> stop.color == TransparentBlack)
      && (colors[i].Some? ==>
            var u := ToUint32(colors[i].value);
            && stop.color.r == RedByte(u) && stop.color.g == GreenByte(u) && stop.color.b == BlueByte(u)
            && BlendAlpha(AlphaByte(u) as real, Min1(maskOpacity)) - 0.5 < stop.color.a * 255.0
            && stop.color.a * 255.0 <= BlendAlpha(AlphaByte(u) as real, Min1(maskOpacity)) + 0.5)
  {
    var adjusted := AdjustColorsForOpacity(colors, maskOpacity);
    var stop := GradientMaskViewStyle(colors, locations, direction, Some(maskOpacity)).maskImage.value.stops[i];
    assert stop.color == ColorToRgba(adjusted[i]);
    if colors[i].Some? {
      var u := ToUint32(colors[i].value);
      if maskOpacity >= 1.0 {
        assert stop.color == ColorToRgba(colors[i]);
        assert stop.color.a * 255.0 == AlphaByte(u) as real;
      } else {
        var v := adjusted[i].value;
        assert v == AdjustColor(colors[i].value, maskOpacity);
        assert ToUint32(v) == v;
        assert stop.color.a * 255.0 == AlphaByte(v) as real;
      }
    }
  }
}
