/**
 * The two backends against each other: the Android gradient axis and the CSS
 * gradient line of the keyword the web picks place every point of the view at the
 * same position along the gradient, and the alpha of each stop agrees up to the
 * web's rounding. The backends differ on purpose in one respect: the Android mask
 * colours are white (only alpha is used), the web stops keep the authored RGB.
 */
module CrossBackend {
  import opened Optional
  import opened MaskAlpha
  import opened AndroidMask
  import opened WebMask

  /**
   * The gradient line CSS Images Module Level 3, section 3.1.1, gives a side keyword
   * in a width x height box: through the box's centre, from the middle of the edge
   * opposite the named side to the middle of the named side.
   */
  function CssGradientLine(keyword: string, width: int, height: int): (line: Axis)
    requires IsSideKeyword(keyword)
    ensures width > 0 && height > 0 ==> AxisLength2(line) > 0.0
  {
    var w, h := width as real, height as real;
    if keyword == "to bottom" then Axis(w / 2.0, 0.0, w / 2.0, h)
    else if keyword == "to top" then Axis(w / 2.0, h, w / 2.0, 0.0)
    else if keyword == "to right" then Axis(0.0, h / 2.0, w, h / 2.0)
    else Axis(w, h / 2.0, 0.0, h / 2.0)
  }

  /** Along "to bottom" a point falls at y/h, along "to top" at 1 − y/h. */
  lemma {:induction false} VerticalLineFraction(width: int, height: int, x: real, y: real)
    requires width > 0 && height > 0
    ensures AxisLength2(CssGradientLine("to bottom", width, height)) > 0.0
    ensures AxisLength2(CssGradientLine("to top", width, height)) > 0.0
    ensures AxisParam(CssGradientLine("to bottom", width, height), x, y) == y / height as real
    ensures AxisParam(CssGradientLine("to top", width, height), x, y) == 1.0 - y / height as real
  {
    var h := height as real;
    var down, up := CssGradientLine("to bottom", width, height), CssGradientLine("to top", width, height);
    assert down.endX - down.startX == 0.0 && up.endX - up.startX == 0.0;
    assert AxisParam(down, x, y) == (y * h) / (h * h);
    ScaledQuotient(y, h);
    assert AxisParam(up, x, y) == ((y - h) * (-h)) / ((-h) * (-h));
    ScaledQuotient(y - h, -h);
    assert AxisParam(up, x, y) == (y - h) / (-h);
    ComplementQuotient(y, h);
  }

  /** Along "to right" a point falls at x/w, along "to left" at 1 − x/w. */
  lemma {:induction false} HorizontalLineFraction(width: int, height: int, x: real, y: real)
    requires width > 0 && height > 0
    ensures AxisLength2(CssGradientLine("to right", width, height)) > 0.0
    ensures AxisLength2(CssGradientLine("to left", width, height)) > 0.0
    ensures AxisParam(CssGradientLine("to right", width, height), x, y) == x / width as real
    ensures AxisParam(CssGradientLine("to left", width, height), x, y) == 1.0 - x / width as real
  {
    var w := width as real;
    var right, left := CssGradientLine("to right", width, height), CssGradientLine("to left", width, height);
    assert right.endY - right.startY == 0.0 && left.endY - left.startY == 0.0;
    assert AxisParam(right, x, y) == (x * w) / (w * w);
    ScaledQuotient(x, w);
    assert AxisParam(left, x, y) == ((x - w) * (-w)) / ((-w) * (-w));
    ScaledQuotient(x - w, -w);
    assert AxisParam(left, x, y) == (x - w) / (-w);
    ComplementQuotient(x, w);
  }

  /**
   * Where a point falls on the CSS gradient line of each keyword: "to bottom" y/h,
   * "to top" 1 - y/h, "to right" x/w, "to left" 1 - x/w.
   */
  lemma {:induction false} CssLineFraction(keyword: string, width: int, height: int, x: real, y: real)
    requires IsSideKeyword(keyword) && width > 0 && height > 0
    ensures AxisLength2(CssGradientLine(keyword, width, height)) > 0.0
    ensures var w, h := width as real, height as real;
      AxisParam(CssGradientLine(keyword, width, height), x, y)
      == if keyword == "to bottom" then y / h
         else if keyword == "to top" then 1.0 - y / h
         else if keyword == "to right" then x / w
         else 1.0 - x / w
  {
    VerticalLineFraction(width, height, x, y);
    HorizontalLineFraction(width, height, x, y);
  }

  /**
   * For every direction name, the Android axis and the CSS gradient line of the web
   * keyword put every point of the view at the same position along the gradient.
   */
  lemma {:induction false} BackendsShareGradientLine(direction: string, width: int, height: int, x: real, y: real)
    requires width > 0 && height > 0
    ensures AxisLength2(GradientCoordinates(direction, width, height)) > 0.0
    ensures AxisLength2(CssGradientLine(GradientDirection(direction), width, height)) > 0.0
    ensures AxisParam(GradientCoordinates(direction, width, height), x, y)
         == AxisParam(CssGradientLine(GradientDirection(direction), width, height), x, y)
  {
    GradientStartsAtNamedEdge(direction, width, height, x, y);
    CssLineFraction(GradientDirection(direction), width, height, x, y);
  }

  /**
   * In every consistent Android state with area and intensity m > 0, a child pixel
   * under a mask pixel carrying colour i's alpha is kept in the proportion of the
   * blend; the web stop for colour i at the same intensity has an alpha (out of 255)
   * within half a unit of it, and equal to it at m = 1.
   */
  lemma {:induction false} BackendsAgreeOnStopAlpha(s: ViewState, colors: seq<Option<int>>, locations: seq<real>, i: nat)
    requires Consistent(s) && s.width > 0 && s.height > 0 && s.maskOpacity > 0.0
    requires PositionsDefined(|colors|, locations) && i < |colors| && colors[i].Some?
    ensures var maskPixel := Pixel(255.0, 255.0, 255.0, AlphaByte(ToUint32(colors[i].value)) as real);
      var kept := KeptAlpha(DrawStep(s).1, maskPixel);
      var webStop := GradientMaskViewStyle(colors, locations, None, Some(s.maskOpacity)).maskImage.value.stops[i];
      && kept == BlendAlpha(maskPixel.a, s.maskOpacity)
      && kept - 0.5 < webStop.color.a * 255.0 <= kept + 0.5
      && (s.maskOpacity == 1.0 ==> webStop.color.a * 255.0 == kept)
  {
    var maskPixel := Pixel(255.0, 255.0, 255.0, AlphaByte(ToUint32(colors[i].value)) as real);
    DrawKeepsBlendedAlpha(s, maskPixel);
    MaskStopsBlendAlpha(colors, locations, None, s.maskOpacity, i);
    assert Min1(s.maskOpacity) == s.maskOpacity;
  }

  /** At intensity 0 neither backend masks: Android draws the children as they are and the web adds no mask style. */
  lemma {:induction false} BackendsAgreeAtZeroIntensity(s: ViewState, colors: seq<Option<int>>, locations: seq<real>, direction: Option<string>)
    requires Consistent(s) && s.maskOpacity == 0.0
    ensures DrawStep(s).1 == PassThrough
    ensures GradientMaskViewStyle(colors, locations, direction, Some(s.maskOpacity)) == NoMask
  {
    if s.width > 0 && s.height > 0 {
      DrawUsesCurrentProps(s);
    }
  }
}
