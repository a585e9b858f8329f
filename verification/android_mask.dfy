/**
 * The Android backend of the gradient mask, as values: the gradient axis of each
 * direction, the base mask image the view caches, the colour-matrix filter that
 * applies the intensity at draw time, and the view's state machine (props, dirty
 * flag, cached bitmap) as step functions over a `ViewState` record.
 * The class `AndroidView.GradientMaskView` is proved to follow these steps.
 */
module AndroidMask {
  import opened Optional
  import opened Argb
  import opened MaskAlpha

  // ---------------------------------------------------------------------------
  // Gradient axis
  // ---------------------------------------------------------------------------

  /** The line a `LinearGradient` runs along: colour stop 0 at the start point, 1 at the end point. */
  datatype Axis = Axis(startX: real, startY: real, endX: real, endY: real)

  function AxisLength2(axis: Axis): real
  {
    (axis.endX - axis.startX) * (axis.endX - axis.startX) + (axis.endY - axis.startY) * (axis.endY - axis.startY)
  }

  /** Where the point (x, y) falls on the axis: its projection, 0 at the start point and 1 at the end point. */
  function AxisParam(axis: Axis, x: real, y: real): real
    requires AxisLength2(axis) > 0.0
  {
    ((x - axis.startX) * (axis.endX - axis.startX) + (y - axis.startY) * (axis.endY - axis.startY)) / AxisLength2(axis)
  }

  /** `getGradientCoordinates`: the axis of each direction in a width x height view; unknown names act as "top". */
  function GradientCoordinates(direction: string, width: int, height: int): (axis: Axis)
    ensures axis.startX == axis.endX || axis.startY == axis.endY
    ensures width > 0 && height > 0 ==> AxisLength2(axis) > 0.0
  {
    var w, h := width as real, height as real;
    if direction == "top" then Axis(0.0, 0.0, 0.0, h)
    else if direction == "bottom" then Axis(0.0, h, 0.0, 0.0)
    else if direction == "left" then Axis(0.0, 0.0, w, 0.0)
    else if direction == "right" then Axis(w, 0.0, 0.0, 0.0)
    else Axis(0.0, 0.0, 0.0, h)
  }

  /**
   * The position along the gradient of a point of the view, as a fraction of the
   * view's extent: a direction names the edge where the first stop sits
   * ("top": y/h; "bottom": 1 − y/h; "left": x/w; "right": 1 − x/w; others as "top").
   */
  function EdgeFraction(direction: string, width: int, height: int, x: real, y: real): real
    requires width > 0 && height > 0
  {
    var w, h := width as real, height as real;
    if direction == "bottom" then 1.0 - y / h
    else if direction == "left" then x / w
    else if direction == "right" then 1.0 - x / w
    else y / h
  }

  lemma ScaledQuotient(a: real, b: real)
    requires b != 0.0
    ensures (a * b) / (b * b) == a / b
  {
    if b < 0.0 { assert b * b == (-b) * (-b); }
    assert b * b != 0.0;
    assert (a / b) * b == a;
    assert (a / b) * (b * b) == a * b;
    assert ((a * b) / (b * b)) * (b * b) == a * b;
  }

  /** Measuring from the far end of a segment of length d gives the complementary fraction. */
  lemma ComplementQuotient(p: real, d: real)
    requires d != 0.0
    ensures (p - d) / (-d) == 1.0 - p / d
    ensures (d - p) / d == 1.0 - p / d
  {
    assert (p / d) * d == p;
    assert (p - d) / (-d) == (d - p) / d;
    assert (d - p) / d == d / d - p / d;
    assert d / d == 1.0;
  }

  /** The axis of each direction puts the first stop on the named edge and the last on the opposite edge. */
  lemma {:induction false} GradientStartsAtNamedEdge(direction: string, width: int, height: int, x: real, y: real)
    requires width > 0 && height > 0
    ensures AxisLength2(GradientCoordinates(direction, width, height)) > 0.0
    ensures AxisParam(GradientCoordinates(direction, width, height), x, y) == EdgeFraction(direction, width, height, x, y)
  {
    var w, h := width as real, height as real;
    if direction == "bottom" {
      ScaledQuotient(y - h, -h);
      ComplementQuotient(y, h);
    } else if direction == "left" {
      ScaledQuotient(x, w);
    } else if direction == "right" {
      ScaledQuotient(x - w, -w);
      ComplementQuotient(x, w);
    } else {
      ScaledQuotient(y, h);
    }
  }

  /** Opposite directions give mirrored gradients: "bottom" is "top" reflected, "right" is "left" reflected. */
  lemma {:induction false} OppositeDirectionsMirror(width: int, height: int, x: real, y: real)
    requires width > 0 && height > 0
    ensures AxisLength2(GradientCoordinates("top", width, height)) > 0.0
    ensures AxisLength2(GradientCoordinates("left", width, height)) > 0.0
    ensures AxisLength2(GradientCoordinates("bottom", width, height)) > 0.0
    ensures AxisLength2(GradientCoordinates("right", width, height)) > 0.0
    ensures AxisParam(GradientCoordinates("bottom", width, height), x, y)
         == AxisParam(GradientCoordinates("top", width, height), x, height as real - y)
    ensures AxisParam(GradientCoordinates("right", width, height), x, y)
         == AxisParam(GradientCoordinates("left", width, height), width as real - x, y)
  {
    var w, h := width as real, height as real;
    GradientStartsAtNamedEdge("top", width, height, x, h - y);
    GradientStartsAtNamedEdge("bottom", width, height, x, y);
    GradientStartsAtNamedEdge("left", width, height, w - x, y);
    GradientStartsAtNamedEdge("right", width, height, x, y);
    ComplementQuotient(y, h);
    ComplementQuotient(x, w);
  }

  // ---------------------------------------------------------------------------
  // Base mask image
  // ---------------------------------------------------------------------------

  /**
   * What `updateBaseMaskBitmap` draws into a fresh width x height bitmap: solid white
   * (fully opaque, content fully visible) or a clamped linear gradient along `axis`
   * through `colors` at `positions`.
   */
  datatype MaskImage =
    | SolidWhite(width: int, height: int)
    | LinearMask(width: int, height: int, axis: Axis, colors: seq<bv32>, positions: seq<real>)

  /** The neutral test as the source writes it: absent colours or locations, a length mismatch, or no colours. */
  predicate IsNeutralAsWritten(colors: Option<seq<bv32>>, locations: Option<seq<real>>)
  {
    colors.None? || locations.None? || |colors.value| != |locations.value| || |colors.value| == 0
  }

  /** What Android's `LinearGradient(x0, y0, x1, y1, colors, positions, tile)` accepts: two colours or more, one position each. */
  predicate ShaderAccepts(colors: seq<bv32>, positions: seq<real>)
  {
    |colors| >= 2 && |positions| == |colors|
  }

  /** The neutral test the model uses: the test as written, and also a single colour (see Findings in README). */
  predicate IsNeutral(colors: Option<seq<bv32>>, locations: Option<seq<real>>)
  {
    IsNeutralAsWritten(colors, locations) || |colors.value| < 2
  }

  /** The test as written lets one colour with one location through to the shader, which rejects it. */
  lemma SingleColourReachesShader()
    ensures !IsNeutralAsWritten(Some([0x8000_0000]), Some([0.5]))
    ensures !ShaderAccepts(MaskColors([0x8000_0000]), [0.5])
  {
  }

  /** With the corrected test, every input that is not neutral is one the shader accepts. */
  lemma GradientBranchAcceptedByShader(colors: Option<seq<bv32>>, locations: Option<seq<real>>)
    requires !IsNeutral(colors, locations)
    ensures ShaderAccepts(MaskColors(colors.value), locations.value)
  {
  }

  /** The `IntArray` initializer: each mask colour is white carrying the source colour's alpha. */
  function MaskColors(colors: seq<bv32>): (mask: seq<bv32>)
    ensures |mask| == |colors|
    ensures forall i :: 0 <= i < |colors| ==>
      Alpha(mask[i]) == Alpha(colors[i]) && Red(mask[i]) == 0xff && Green(mask[i]) == 0xff && Blue(mask[i]) == 0xff
  {
    seq(|colors|, i requires 0 <= i < |colors| => Pack(Alpha(colors[i]), 0xff, 0xff, 0xff))
  }

  /** The image `updateBaseMaskBitmap` draws for the current props and size: the unadjusted (intensity 1) mask. */
  function BaseImage(colors: Option<seq<bv32>>, locations: Option<seq<real>>, direction: string, width: int, height: int): (image: MaskImage)
    ensures image.width == width && image.height == height
    ensures image.SolidWhite? <==> IsNeutral(colors, locations)
    ensures image.LinearMask? ==>
      && ShaderAccepts(image.colors, image.positions)
      && image.axis == GradientCoordinates(direction, width, height)
      && image.positions == locations.value
      && |image.colors| == |colors.value|
      && (forall i :: 0 <= i < |image.colors| ==> Alpha(image.colors[i]) == Alpha(colors.value[i]))
      && (forall i :: 0 <= i < |image.colors| ==> Red(image.colors[i]) == Green(image.colors[i]) == Blue(image.colors[i]) == 0xff)
  {
    if IsNeutral(colors, locations) then SolidWhite(width, height)
    else LinearMask(width, height, GradientCoordinates(direction, width, height), MaskColors(colors.value), locations.value)
  }

  /** A two-stop transparent-to-opaque mask on a 100 x 100 view runs from y = 0 to y = 100 with alphas 0 and 255. */
  lemma TransparentToOpaqueScenario()
    ensures BaseImage(Some([0x0000_0000, 0xffff_ffff]), Some([0.0, 1.0]), "top", 100, 100)
         == LinearMask(100, 100, Axis(0.0, 0.0, 0.0, 100.0), [0x00ff_ffff, 0xffff_ffff], [0.0, 1.0])
  {
    var mask := MaskColors([0x0000_0000, 0xffff_ffff]);
    PackChannels(mask[0]);
    PackChannels(mask[1]);
  }

  // ---------------------------------------------------------------------------
  // Draw-time intensity filter
  // ---------------------------------------------------------------------------

  /** An ARGB pixel as the colour matrix sees it: four channels in 0..255. */
  datatype Pixel = Pixel(r: real, g: real, b: real, a: real)

  predicate InRange(p: Pixel)
  {
    0.0 <= p.r <= 255.0 && 0.0 <= p.g <= 255.0 && 0.0 <= p.b <= 255.0 && 0.0 <= p.a <= 255.0
  }

  /** The 4 x 5 colour matrix set in `dispatchDraw`, row-major: identity RGB rows, alpha row scale m, translate 255(1 − m). */
  function IntensityMatrix(m: real): (matrix: seq<real>)
    ensures |matrix| == 20
  {
    [1.0, 0.0, 0.0, 0.0, 0.0,
     0.0, 1.0, 0.0, 0.0, 0.0,
     0.0, 0.0, 1.0, 0.0, 0.0,
     0.0, 0.0, 0.0, m, 255.0 * (1.0 - m)]
  }

  /** The paint's colour filter: none at full intensity, the intensity matrix below it. */
  function ColorFilterFor(maskOpacity: real): (filter: Option<seq<real>>)
    ensures filter.Some? <==> maskOpacity < 1.0
    ensures filter.Some? ==> |filter.value| == 20
  {
    if maskOpacity < 1.0 then Some(IntensityMatrix(maskOpacity)) else None
  }

  function ClampChannel(x: real): real
  {
    if x < 0.0 then 0.0 else if x > 255.0 then 255.0 else x
  }

  function MatrixRow(matrix: seq<real>, row: nat, p: Pixel): real
    requires |matrix| == 20 && row < 4
  {
    var k := 5 * row;
    ClampChannel(matrix[k] * p.r + matrix[k + 1] * p.g + matrix[k + 2] * p.b + matrix[k + 3] * p.a + matrix[k + 4])
  }

  /** Android's `ColorMatrixColorFilter`: each output channel is its row applied to (R, G, B, A, 1), clamped to 0..255. */
  function ApplyColorMatrix(matrix: seq<real>, p: Pixel): Pixel
    requires |matrix| == 20
  {
    Pixel(MatrixRow(matrix, 0, p), MatrixRow(matrix, 1, p), MatrixRow(matrix, 2, p), MatrixRow(matrix, 3, p))
  }

  function ApplyColorFilter(filter: Option<seq<real>>, p: Pixel): Pixel
    requires filter.Some? ==> |filter.value| == 20
  {
    if filter.None? then p else ApplyColorMatrix(filter.value, p)
  }

  /** For every intensity in [0, 1] the draw-time filter keeps RGB and turns alpha A into A·m + 255(1 − m). */
  lemma {:induction false} IntensityFilterBlendsAlpha(m: real, p: Pixel)
    requires 0.0 <= m <= 1.0 && InRange(p)
    ensures ApplyColorFilter(ColorFilterFor(m), p) == p.(a := BlendAlpha(p.a, m))
    ensures p.a <= ApplyColorFilter(ColorFilterFor(m), p).a <= 255.0
  {
    if m < 1.0 {
      var matrix := IntensityMatrix(m);
      assert MatrixRow(matrix, 0, p) == p.r;
      assert MatrixRow(matrix, 1, p) == p.g;
      assert MatrixRow(matrix, 2, p) == p.b;
      assert MatrixRow(matrix, 3, p) == BlendAlpha(p.a, m);
    }
  }

  // ---------------------------------------------------------------------------
  // Draw outcome
  // ---------------------------------------------------------------------------

  /**
   * What one `dispatchDraw` does: draw the children as they are, or draw them into
   * an offscreen layer and composite the cached mask over them with DST_IN through
   * the given colour filter.
   */
  datatype DrawOutcome = PassThrough | Masked(mask: MaskImage, filter: Option<seq<real>>)

  predicate WellFormedOutcome(outcome: DrawOutcome)
  {
    outcome.Masked? && outcome.filter.Some? ==> |outcome.filter.value| == 20
  }

  /**
   * The alpha (out of 255) by which the composite scales a child pixel lying under a
   * base-mask pixel `maskPixel`: DST_IN keeps the destination in proportion to the
   * filtered mask alpha; a pass-through keeps all of it.
   */
  function KeptAlpha(outcome: DrawOutcome, maskPixel: Pixel): real
    requires WellFormedOutcome(outcome)
  {
    match outcome
    case PassThrough => 255.0
    case Masked(_, filter) => ApplyColorFilter(filter, maskPixel).a
  }

  // ---------------------------------------------------------------------------
  // View state machine
  // ---------------------------------------------------------------------------

  /**
   * The state of one `GradientMaskView`: its props, its layout size, the dirty flag,
   * the image in the cached bitmap (None when there is no bitmap) and how many
   * bitmaps it has built so far.
   */
  datatype ViewState = ViewState(
    colors: Option<seq<bv32>>,
    locations: Option<seq<real>>,
    direction: string,
    maskOpacity: real,
    width: int,
    height: int,
    baseBitmapInvalidated: bool,
    baseMask: Option<MaskImage>,
    rebuilds: nat)

  function InitialState(): ViewState
  {
    ViewState(None, None, "top", 1.0, 0, 0, true, None, 0)
  }

  function CurrentBaseImage(s: ViewState): MaskImage
  {
    BaseImage(s.colors, s.locations, s.direction, s.width, s.height)
  }

  /**
   * The invariant every reachable state keeps: the intensity lies in [0, 1], and a
   * clean flag on a view with area means the cached bitmap holds the base image of
   * the current props and size.
   */
  predicate Consistent(s: ViewState)
  {
    && 0.0 <= s.maskOpacity <= 1.0
    && (!s.baseBitmapInvalidated && s.width > 0 && s.height > 0 ==> s.baseMask == Some(CurrentBaseImage(s)))
  }

  function SetColorsStep(s: ViewState, colors: Option<seq<bv32>>): ViewState
  {
    s.(colors := colors, baseBitmapInvalidated := true)
  }

  function SetLocationsStep(s: ViewState, locations: Option<seq<real>>): ViewState
  {
    s.(locations := locations, baseBitmapInvalidated := true)
  }

  function SetDirectionStep(s: ViewState, direction: string): ViewState
  {
    s.(direction := direction, baseBitmapInvalidated := true)
  }

  /** Kotlin's `coerceIn(0f, 1f)`. */
  function Clamp01(x: real): (r: real)
    ensures 0.0 <= r <= 1.0
    ensures 0.0 <= x <= 1.0 ==> r == x
    ensures x < 0.0 ==> r == 0.0
    ensures x > 1.0 ==> r == 1.0
  {
    if x < 0.0 then 0.0 else if x > 1.0 then 1.0 else x
  }

  /** `setMaskOpacity`: store the clamped intensity; only the intensity can change. */
  function SetMaskOpacityStep(s: ViewState, opacity: real): (r: ViewState)
    ensures r == s.(maskOpacity := Clamp01(opacity))
    ensures Clamp01(opacity) == s.maskOpacity ==> r == s
  {
    var newOpacity := Clamp01(opacity);
    if newOpacity != s.maskOpacity then s.(maskOpacity := newOpacity) else s
  }

  /** `updateBaseMaskBitmap`: nothing without area, otherwise one more bitmap holding the current base image. */
  function RebuildStep(s: ViewState): ViewState
  {
    if s.width <= 0 || s.height <= 0 then s
    else s.(baseMask := Some(CurrentBaseImage(s)), rebuilds := s.rebuilds + 1)
  }

  /** `onSizeChanged(w, h, …)`, the new size already in place: rebuild at once when it has area. */
  function SizeChangedStep(s: ViewState, w: int, h: int): ViewState
  {
    var resized := s.(width := w, height := h);
    if w > 0 && h > 0 then RebuildStep(resized).(baseBitmapInvalidated := false) else resized
  }

  /** `onLayout(changed, …)`: a changed frame marks the bitmap dirty. */
  function LayoutStep(s: ViewState, changed: bool): ViewState
  {
    if changed then s.(baseBitmapInvalidated := true) else s
  }

  /**
   * `dispatchDraw`: without area, draw the children unmasked and change nothing;
   * otherwise rebuild once if dirty, then mask unless there is no bitmap or the
   * intensity is 0.
   */
  function DrawStep(s: ViewState): (r: (ViewState, DrawOutcome))
    ensures WellFormedOutcome(r.1)
    ensures r.0.(baseMask := s.baseMask, rebuilds := s.rebuilds, baseBitmapInvalidated := s.baseBitmapInvalidated) == s
    ensures r.0.rebuilds == if s.baseBitmapInvalidated && s.width > 0 && s.height > 0 then s.rebuilds + 1 else s.rebuilds
    ensures s.width > 0 && s.height > 0 ==> !r.0.baseBitmapInvalidated
    ensures r.1.Masked? ==> r.0.baseMask == Some(r.1.mask) && r.0.maskOpacity > 0.0 && r.1.filter == ColorFilterFor(r.0.maskOpacity)
    ensures (s.width <= 0 || s.height <= 0) ==> r == (s, PassThrough)
  {
    if s.width <= 0 || s.height <= 0 then (s, PassThrough)
    else
      var t := if s.baseBitmapInvalidated then RebuildStep(s).(baseBitmapInvalidated := false) else s;
      if t.baseMask.None? || t.maskOpacity <= 0.0 then (t, PassThrough)
      else (t, Masked(t.baseMask.value, ColorFilterFor(t.maskOpacity)))
  }

  /** `onDetachedFromWindow` as the source writes it: the bitmap is released and the dirty flag left as it was. */
  function DetachStepAsWritten(s: ViewState): ViewState
  {
    s.(baseMask := None)
  }

  /** `onDetachedFromWindow` as the model uses it: release the bitmap and mark it dirty, so the next draw rebuilds it. */
  function DetachStep(s: ViewState): ViewState
  {
    s.(baseMask := None, baseBitmapInvalidated := true)
  }

  /** The inputs a view receives: prop updates, layout callbacks, draws and detachment. */
  datatype Event =
    | SetColorsEvent(colors: Option<seq<bv32>>)
    | SetLocationsEvent(locations: Option<seq<real>>)
    | SetDirectionEvent(direction: string)
    | SetMaskOpacityEvent(opacity: real)
    | SizeChangedEvent(w: int, h: int)
    | LayoutEvent(changed: bool)
    | DrawEvent
    | DetachEvent

  function Apply(s: ViewState, e: Event): ViewState
  {
    match e
    case SetColorsEvent(c) => SetColorsStep(s, c)
    case SetLocationsEvent(l) => SetLocationsStep(s, l)
    case SetDirectionEvent(d) => SetDirectionStep(s, d)
    case SetMaskOpacityEvent(o) => SetMaskOpacityStep(s, o)
    case SizeChangedEvent(w, h) => SizeChangedStep(s, w, h)
    case LayoutEvent(changed) => LayoutStep(s, changed)
    case DrawEvent => DrawStep(s).0
    case DetachEvent => DetachStep(s)
  }

  function Run(s: ViewState, events: seq<Event>): ViewState
    decreases |events|
  {
    if events == [] then s else Run(Apply(s, events[0]), events[1..])
  }

  // ---------------------------------------------------------------------------
  // Properties of the state machine
  // ---------------------------------------------------------------------------

  /** Every step keeps the invariant. */
  lemma {:induction false} ApplyKeepsConsistent(s: ViewState, e: Event)
    requires Consistent(s)
    ensures Consistent(Apply(s, e))
  {
    match e
    case SetMaskOpacityEvent(o) =>
      assert CurrentBaseImage(Apply(s, e)) == CurrentBaseImage(s);
    case SizeChangedEvent(w, h) =>
    case LayoutEvent(changed) =>
    case DrawEvent =>
      var r := DrawStep(s);
      if s.width > 0 && s.height > 0 && !s.baseBitmapInvalidated {
        assert r.0 == s;
      }
    case _ =>
  }

  /** Any sequence of events keeps the invariant. */
  lemma {:induction false} RunKeepsConsistent(s: ViewState, events: seq<Event>)
    requires Consistent(s)
    ensures Consistent(Run(s, events))
    decreases |events|
  {
    if events != [] {
      ApplyKeepsConsistent(s, events[0]);
      RunKeepsConsistent(Apply(s, events[0]), events[1..]);
    }
  }

  /** Every state a new view can reach keeps the invariant. */
  lemma ReachableStatesConsistent(events: seq<Event>)
    ensures Consistent(Run(InitialState(), events))
  {
    RunKeepsConsistent(InitialState(), events);
  }

  /**
   * In every consistent state with area, a draw masks exactly when the intensity is
   * positive, and then with the base image of the current props and the filter of
   * the current intensity.
   */
  lemma {:induction false} DrawUsesCurrentProps(s: ViewState)
    requires Consistent(s) && s.width > 0 && s.height > 0
    ensures DrawStep(s).1 == if s.maskOpacity > 0.0 then Masked(CurrentBaseImage(s), ColorFilterFor(s.maskOpacity)) else PassThrough
  {
  }

  /**
   * In every consistent state with area, a draw keeps a child pixel in the proportion
   * A·m + 255(1 − m) of the mask alpha A under it, for every intensity m in [0, 1]:
   * intensity 0 shows the content fully, intensity 1 applies the gradient alpha as it is.
   */
  lemma {:induction false} DrawKeepsBlendedAlpha(s: ViewState, maskPixel: Pixel)
    requires Consistent(s) && s.width > 0 && s.height > 0 && InRange(maskPixel)
    ensures KeptAlpha(DrawStep(s).1, maskPixel) == BlendAlpha(maskPixel.a, s.maskOpacity)
  {
    DrawUsesCurrentProps(s);
    if s.maskOpacity > 0.0 {
      IntensityFilterBlendsAlpha(s.maskOpacity, maskPixel);
    }
  }

  /** The neutral mask is solid white, so the content stays fully visible at every intensity. */
  lemma NeutralMaskKeepsContentVisible(s: ViewState)
    requires Consistent(s) && s.width > 0 && s.height > 0 && IsNeutral(s.colors, s.locations)
    ensures CurrentBaseImage(s) == SolidWhite(s.width, s.height)
    ensures KeptAlpha(DrawStep(s).1, Pixel(255.0, 255.0, 255.0, 255.0)) == 255.0
  {
    DrawKeepsBlendedAlpha(s, Pixel(255.0, 255.0, 255.0, 255.0));
  }

  /**
   * A colour, location or direction change, or a changed frame, changes only its own
   * prop and marks the bitmap dirty, keeping the cached image and the intensity; the
   * next draw with area then builds exactly one bitmap, holding the base image of the
   * new props.
   */
  lemma {:induction false} PropChangeReachesNextDraw(s: ViewState, e: Event)
    requires e.SetColorsEvent? || e.SetLocationsEvent? || e.SetDirectionEvent? || e == LayoutEvent(true)
    ensures var t := Apply(s, e);
      && t.baseBitmapInvalidated
      && t.(colors := s.colors, locations := s.locations, direction := s.direction, baseBitmapInvalidated := s.baseBitmapInvalidated) == s
      && (t.width > 0 && t.height > 0 ==>
            DrawStep(t).0.baseMask == Some(CurrentBaseImage(t)) && DrawStep(t).0.rebuilds == s.rebuilds + 1)
  {
  }

  predicate IntensityOrDraw(e: Event)
  {
    e.SetMaskOpacityEvent? || e.DrawEvent?
  }

  /**
   * A run of intensity changes and draws never touches the props, builds at most one
   * bitmap (the one a pending dirty flag asks for), and builds none and keeps the
   * cached image when the flag is clean.
   */
  lemma {:induction false} IntensityRunKeepsBitmap(s: ViewState, events: seq<Event>)
    requires forall i :: 0 <= i < |events| ==> IntensityOrDraw(events[i])
    ensures Run(s, events).colors == s.colors && Run(s, events).locations == s.locations
    ensures Run(s, events).direction == s.direction
    ensures Run(s, events).width == s.width && Run(s, events).height == s.height
    ensures Run(s, events).rebuilds <= s.rebuilds + 1
    ensures !s.baseBitmapInvalidated ==>
      Run(s, events).rebuilds == s.rebuilds && Run(s, events).baseMask == s.baseMask && !Run(s, events).baseBitmapInvalidated
    ensures Run(s, events).rebuilds == s.rebuilds + 1 ==> !Run(s, events).baseBitmapInvalidated
    decreases |events|
  {
    if events != [] {
      var t := Apply(s, events[0]);
      assert t.rebuilds <= s.rebuilds + 1;
      assert t.rebuilds == s.rebuilds + 1 ==> !t.baseBitmapInvalidated;
      assert !s.baseBitmapInvalidated ==> t.rebuilds == s.rebuilds && t.baseMask == s.baseMask && !t.baseBitmapInvalidated;
      IntensityRunKeepsBitmap(t, events[1..]);
    }
  }

  /**
   * As written, detaching a view masked with a transparent-to-opaque gradient and
   * drawing it again with the same size and props shows the children unmasked: the
   * bitmap is gone and the clean flag stops the rebuild, so content under a fully
   * transparent mask pixel, hidden before, is fully visible after. The corrected
   * detach rebuilds and masks as before.
   */
  lemma DetachAsWrittenLosesMask()
    ensures var s := SizeChangedStep(SetLocationsStep(SetColorsStep(InitialState(), Some([0x0000_0000, 0xffff_ffff])), Some([0.0, 1.0])), 100, 100);
      var transparent := Pixel(255.0, 255.0, 255.0, 0.0);
      && Consistent(s)
      && DrawStep(s).1.Masked? && DrawStep(s).1.mask.LinearMask?
      && KeptAlpha(DrawStep(s).1, transparent) == 0.0
      && !Consistent(DetachStepAsWritten(s))
      && KeptAlpha(DrawStep(DetachStepAsWritten(s)).1, transparent) == 255.0
      && DrawStep(DetachStep(s)).1 == DrawStep(s).1
  {
  }
}
