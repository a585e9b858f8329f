/**
 * The web `AnimatedGradientMaskView`. Its helpers (`colorToRgba`,
 * `getGradientDirection`, `buildGradientString`, `adjustColorsForOpacity`) are the
 * same text as the static component's and are the functions of `WebMask`; what is
 * its own is the style it picks from the current intensity, with a fixed transition.
 */
module AnimatedWebMask {
  import opened Optional
  import opened WebMask

  const MaskTransition := "mask-image 0.1s ease-out, -webkit-mask-image 0.1s ease-out"

  /**
   * The `maskStyle` of `AnimatedGradientMaskView` for the current intensity (default
   * direction "top"): no mask at intensity <= 0; otherwise the static component's
   * style at that intensity, plus the transition.
   */
  function AnimatedGradientMaskViewStyle(colors: seq<Option<int>>, locations: seq<real>, direction: Option<string>, currentOpacity: real): (style: MaskStyle)
    requires currentOpacity > 0.0 ==> PositionsDefined(|colors|, locations)
    ensures currentOpacity <= 0.0 <==> style == NoMask
    ensures currentOpacity > 0.0 ==> style.transition == Some(MaskTransition)
    ensures style.(transition := None) == GradientMaskViewStyle(colors, locations, direction, Some(currentOpacity))
  {
    if currentOpacity <= 0.0 then NoMask
    else
      var adjustedColors := AdjustColorsForOpacity(colors, currentOpacity);
      var gradient := BuildGradient(adjustedColors, locations, OrDefault(direction, "top"));
      MaskStyle(Some(gradient), Some(gradient), Some(MaskTransition))
  }
}
