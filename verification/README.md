# Gradient mask, modelled in Dafny

`expo-gradient-mask` draws a linear-gradient transparency mask over a view's children.
The alpha of each gradient colour decides how much of the content shows through:
alpha 0 hides it and alpha 255 shows it. A scalar intensity, `maskOpacity` in [0, 1],
blends between no mask at all (0) and the full gradient alpha (1).

There are two backends, and this project models both:

- **Android.** `GradientMaskView` caches the gradient in a bitmap. It rebuilds the
  bitmap only when the colours, locations, direction or size change. At draw time it
  composites the bitmap over the children with DST_IN. A colour matrix applies the
  intensity, turning each mask alpha A into A·m + 255(1 − m).
- **Web.** The components build a CSS `linear-gradient()` (CSS Images Module Level 3,
  section 3.1). They use it as `mask-image` and `-webkit-mask-image` (CSS Masking
  Module Level 1, section 6.1). The intensity is baked into each colour's alpha byte.

## Modules

- `optional.dfy`: the `Option` type. It stands for Kotlin's nullable values and for
  JavaScript's `null` and `undefined` props.
- `argb.dfy` (`Argb`): Android colour ints as 32-bit patterns. It has `Color.alpha`,
  the other channels, and `Color.argb`.
- `mask_alpha.dfy` (`MaskAlpha`): the intensity blend A·m + 255(1 − m). Both backends
  share it.
- `android_mask.dfy` (`AndroidMask`): the pure parts of the Android view:
  - gradient coordinates;
  - the neutral test;
  - white-plus-alpha mask colours;
  - the colour matrix and its effect on a pixel.

  It also holds the whole view as a value, `ViewState`. One step function stands for
  each callback. `Run` applies a sequence of callbacks, and lemmas cover every
  reachable state. Two steps are the corrected forms listed under "## Findings":
  `DetachStep` also sets the dirty flag, and the neutral test `IsNeutral` also counts
  a single colour. The as-written detach, `DetachStepAsWritten`, is kept beside it and
  does not keep the invariant.
- `android_view.dfy` (`AndroidView`): `GradientMaskView` as a class whose methods
  update its fields in place. Each method is proved to move `State()` exactly as the
  matching step function says. Each method also keeps the bitmap lifecycle: every
  bitmap built, except the one held, has been recycled.
- `web_mask.dfy` (`WebMask`): the web helpers `colorToRgba`, `getGradientDirection`,
  `buildGradientString` and `adjustColorsForOpacity`, and the `maskStyle` of
  `GradientMaskView`. `src/AnimatedGradientMaskView.web.tsx` repeats these helpers
  with the same text (lines 23-96). They are modelled once, and the rows below name
  both copies.
- `animated_web_mask.dfy` (`AnimatedWebMask`): the `maskStyle` of
  `AnimatedGradientMaskView`.
- `cross_backend.dfy` (`CrossBackend`): the two backends compared.
  - Every point of the view gets the same position along the gradient on Android and
    on the web.
  - The stop alphas agree up to the web's rounding.
  - Neither backend masks at intensity 0.

Colours are modelled as follows:
- On Android, a colour is a `bv32` bit pattern.
- On the web, a colour is a JavaScript number taken as an integer, and `>>> 0` is the
  residue modulo 2^32.
- `Math.round(x)` is `Floor(x + 0.5)`.
- Locations and intensities are `real`.

## Model

| member | source | states |
|---|---|---|
| Argb.Pack | android/src/main/java/expo/modules/gradientmask/GradientMaskView.kt:200-204 | `Color.argb` puts each channel in its own byte lane, so alpha, red, green and blue read back unchanged |
| Argb.PackChannels | android/src/main/java/expo/modules/gradientmask/GradientMaskView.kt:200-204 | a colour is determined by its four channels: repacking them gives the same colour |
| MaskAlpha.BlendAlpha | android/src/main/java/expo/modules/gradientmask/GradientMaskView.kt:143-158 | the blend of a byte alpha A with an intensity in [0, 1] lies in [A, 255]; intensity 1 keeps A and intensity 0 gives 255 |
| MaskAlpha.BlendAntitone | android/src/main/java/expo/modules/gradientmask/GradientMaskView.kt:19-21 | more intensity never makes the mask more opaque: the blended alpha is antitone in m |
| AndroidMask.GradientCoordinates | android/src/main/java/expo/modules/gradientmask/GradientMaskView.kt:230-238 | each axis is horizontal or vertical, and has positive length when the view has area |
| AndroidMask.GradientStartsAtNamedEdge | android/src/main/java/expo/modules/gradientmask/GradientMaskView.kt:230-238 | a point falls at y/h along the axis for "top" and for unknown names, at 1 − y/h for "bottom", at x/w for "left" and at 1 − x/w for "right" |
| AndroidMask.OppositeDirectionsMirror | android/src/main/java/expo/modules/gradientmask/GradientMaskView.kt:232-235 | "bottom" is "top" with start and end swapped, which is "top" reflected in the horizontal midline; "right" is "left" reflected the same way |
| AndroidMask.MaskColors | android/src/main/java/expo/modules/gradientmask/GradientMaskView.kt:200-204 | the mask colours have the same length as the colours; entry i has the alpha of colour i and red, green and blue 255 |
| AndroidMask.BaseImage | android/src/main/java/expo/modules/gradientmask/GradientMaskView.kt:187-221 | the image has the view's size; it is solid white exactly when the props are neutral, where neutral also covers a single colour, on which the source's shader throws (see Findings); otherwise it is a gradient the shader accepts, along the direction's axis, through the white-plus-alpha colours at the given locations |
| AndroidMask.TransparentToOpaqueScenario | android/src/main/java/expo/modules/gradientmask/GradientMaskView.kt:187-221 | a transparent-to-opaque pair on a 100 x 100 view with direction "top" gives a gradient from y = 0 to y = 100 with alphas 0 and 255 |
| AndroidMask.SingleColourReachesShader | android/src/main/java/expo/modules/gradientmask/GradientMaskView.kt:191-213 | the neutral test as written lets one colour with one location reach a shader that needs two colours |
| AndroidMask.GradientBranchAcceptedByShader | android/src/main/java/expo/modules/gradientmask/GradientMaskView.kt:191-213 | with the corrected neutral test, every non-neutral input gives the shader at least two colours and one position per colour |
| AndroidMask.IntensityMatrix | android/src/main/java/expo/modules/gradientmask/GradientMaskView.kt:154-159 | the colour matrix has 4 x 5 = 20 entries |
| AndroidMask.ColorFilterFor | android/src/main/java/expo/modules/gradientmask/GradientMaskView.kt:143-163 | a colour filter is used exactly when the intensity is below 1, and then it is a 20-entry matrix |
| AndroidMask.IntensityFilterBlendsAlpha | android/src/main/java/expo/modules/gradientmask/GradientMaskView.kt:143-164 | for every intensity m in [0, 1] the filter keeps red, green and blue and turns the mask alpha A into A·m + 255(1 − m), which lies in [A, 255] |
| AndroidMask.Clamp01 | android/src/main/java/expo/modules/gradientmask/GradientMaskView.kt:80 | `coerceIn(0f, 1f)`: the result lies in [0, 1], equals x inside it, and is 0 below it and 1 above it |
| AndroidMask.SetMaskOpacityStep | android/src/main/java/expo/modules/gradientmask/GradientMaskView.kt:79-87 | only the intensity changes, to the clamped value; the flag, the bitmap and the props stay; a value equal to the current one changes nothing |
| AndroidMask.DrawStep | android/src/main/java/expo/modules/gradientmask/GradientMaskView.kt:108-170 | without area the draw passes through and changes nothing; with area it rebuilds exactly when the flag was set, and it clears the flag; a masked draw uses the cached image, a positive intensity and that intensity's filter; props and size never change |
| AndroidMask.ApplyKeepsConsistent | android/src/main/java/expo/modules/gradientmask/GradientMaskView.kt:61-228 | every callback, with detach in its corrected form (see Findings), keeps two facts: the intensity stays in [0, 1], and a clean flag on a view with area means the cached bitmap holds the base image of the current props and size |
| AndroidMask.RunKeepsConsistent | android/src/main/java/expo/modules/gradientmask/GradientMaskView.kt:61-228 | every sequence of callbacks, with the corrected detach, keeps that invariant |
| AndroidMask.ReachableStatesConsistent | android/src/main/java/expo/modules/gradientmask/GradientMaskView.kt:29-40 | every state a new view reaches through the callbacks, with the corrected detach, starting from its initial fields, keeps that invariant |
| AndroidMask.DrawUsesCurrentProps | android/src/main/java/expo/modules/gradientmask/GradientMaskView.kt:115-163 | in every state that keeps the invariant and has area, a draw masks exactly when the intensity is positive, using the base image of the current props and the filter of the current intensity |
| AndroidMask.DrawKeepsBlendedAlpha | android/src/main/java/expo/modules/gradientmask/GradientMaskView.kt:121-164 | in every state that keeps the invariant and has area, a child pixel under mask alpha A is kept in the proportion A·m + 255(1 − m): fully at intensity 0, as the gradient says at intensity 1 |
| AndroidMask.NeutralMaskKeepsContentVisible | android/src/main/java/expo/modules/gradientmask/GradientMaskView.kt:190-196 | with neutral props the cached image is solid white, and a draw keeps the content fully visible |
| AndroidMask.PropChangeReachesNextDraw | android/src/main/java/expo/modules/gradientmask/GradientMaskView.kt:61-104 | a colour, location or direction change, or `onLayout` with a changed frame, changes only its own field and sets the dirty flag; the next draw with area builds exactly one bitmap, holding the new props' base image |
| AndroidMask.IntensityRunKeepsBitmap | android/src/main/java/expo/modules/gradientmask/GradientMaskView.kt:79-119 | any run of intensity changes and draws leaves the props and size unchanged and builds at most one bitmap; with a clean flag it builds none and keeps the cached image |
| AndroidMask.DetachAsWrittenLosesMask | android/src/main/java/expo/modules/gradientmask/GradientMaskView.kt:224-228 | a 100 x 100 view with a transparent-to-opaque gradient hides the content under a fully transparent mask pixel; detached as written and drawn again at the same size and props, it keeps that content fully (alpha 255) and breaks the invariant; the corrected detach draws the same mask as before |
| AndroidView.GradientMaskView.constructor | android/src/main/java/expo/modules/gradientmask/GradientMaskView.kt:29-40 | a new view has no props, direction "top", intensity 1, a set flag, no bitmap and no bitmaps built |
| AndroidView.GradientMaskView.SetColors | android/src/main/java/expo/modules/gradientmask/GradientMaskView.kt:61-65 | stores the colours, sets the flag and keeps the bitmap lifecycle and the invariant |
| AndroidView.GradientMaskView.SetLocations | android/src/main/java/expo/modules/gradientmask/GradientMaskView.kt:67-71 | stores the locations, sets the flag and keeps the lifecycle and the invariant |
| AndroidView.GradientMaskView.SetDirection | android/src/main/java/expo/modules/gradientmask/GradientMaskView.kt:73-77 | stores the direction, sets the flag and keeps the lifecycle and the invariant |
| AndroidView.GradientMaskView.SetMaskOpacity | android/src/main/java/expo/modules/gradientmask/GradientMaskView.kt:79-87 | stores the clamped intensity; the bitmap and the flag are untouched |
| AndroidView.GradientMaskView.UpdateBaseMaskBitmap | android/src/main/java/expo/modules/gradientmask/GradientMaskView.kt:177-222 | does nothing without area; otherwise it recycles the held bitmap before holding a fresh one with the current base image, so at most one bitmap is live; the image is solid white for a single colour too, where the source's shader throws (see Findings) |
| AndroidView.GradientMaskView.OnSizeChanged | android/src/main/java/expo/modules/gradientmask/GradientMaskView.kt:91-97 | with area, recycles the held bitmap, appends a fresh one to the record of bitmaps built, holds it and clears the flag; without area, keeps the record and the held bitmap; the lifecycle and the invariant are kept |
| AndroidView.GradientMaskView.OnLayout | android/src/main/java/expo/modules/gradientmask/GradientMaskView.kt:99-104 | a changed frame sets the flag; nothing else changes |
| AndroidView.GradientMaskView.DispatchDraw | android/src/main/java/expo/modules/gradientmask/GradientMaskView.kt:108-170 | moves the view exactly as `DrawStep` says; a dirty draw with area recycles the held bitmap and holds a fresh one, and any other draw keeps the same bitmap object and record; a masked draw composites the held bitmap, which is live |
| AndroidView.GradientMaskView.OnDetachedFromWindow | android/src/main/java/expo/modules/gradientmask/GradientMaskView.kt:224-228 | recycles and drops the bitmap, so every bitmap the view built is recycled; it also sets the flag (see Findings) |
| WebMask.ToUint32 | src/GradientMaskView.web.tsx:15 | `>>> 0` gives an unsigned 32-bit value congruent to the input modulo 2^32, and leaves unsigned values as they are |
| WebMask.PackArgb | src/GradientMaskView.web.tsx:85 | packing four bytes gives an unsigned 32-bit value whose alpha, red, green and blue bytes read back unchanged |
| WebMask.RepackArgb | src/GradientMaskView.web.tsx:15-19 | an unsigned colour is the packing of its own four bytes |
| WebMask.Round | src/GradientMaskView.web.tsx:85 | `Math.round` lands within half a unit of its argument |
| WebMask.ColorToRgba | src/GradientMaskView.web.tsx:9-22 | null gives transparent black; otherwise r, g and b are bytes 2, 1 and 0 of the unsigned value, a is byte 3 over 255, in [0, 1], and the four fields repack to the unsigned colour; the animated component's copy (src/AnimatedGradientMaskView.web.tsx:23-35) is the same text |
| WebMask.GradientDirection | src/GradientMaskView.web.tsx:27-40 | the result is always one of the four side keywords: "top" gives "to bottom", "bottom" gives "to top", "left" gives "to right", "right" gives "to left", anything else gives "to bottom"; the animated component's copy (src/AnimatedGradientMaskView.web.tsx:40-53) is the same text |
| WebMask.BuildGradient | src/GradientMaskView.web.tsx:45-59 | the direction's keyword, then exactly one stop per colour in input order; each stop has that colour's rgba and its position; the animated component's copy (src/AnimatedGradientMaskView.web.tsx:58-72) is the same text |
| WebMask.EvenSpacingFallback | src/GradientMaskView.web.tsx:54 | without locations, n ≥ 2 stops sit at 0% for the first and 100% for the last, evenly spaced by 100/(n − 1)% |
| WebMask.StopPercentInRange | src/GradientMaskView.web.tsx:54 | with locations in [0, 1], or with the fallback, every stop position lies in 0%..100% |
| WebMask.WebFormulaIsBlend | src/GradientMaskView.web.tsx:84 | before rounding, the web alpha (a + (1 − a)(1 − m))·255 equals the blend A·m + 255(1 − m) |
| WebMask.AdjustedAlphaBounds | src/GradientMaskView.web.tsx:84-85 | for 0 < m < 1 the adjusted alpha byte is within half a unit of the blend and lies in [A, 255] |
| WebMask.AdjustColor | src/GradientMaskView.web.tsx:76-86 | the re-packed colour is unsigned 32-bit; it keeps r, g and b, and its alpha byte is at least A and is the blend rounded |
| WebMask.AdjustColorsForOpacity | src/GradientMaskView.web.tsx:66-87 | the output has the same length; m ≥ 1 gives the colours unchanged; m ≤ 0 gives 0xff000000 everywhere; otherwise nulls stay null and every colour is adjusted; the animated component's copy (src/AnimatedGradientMaskView.web.tsx:77-96) is the same text |
| WebMask.ZeroIntensityIsOpaque | src/GradientMaskView.web.tsx:71-74 | at intensity ≤ 0 every entry has alpha byte 255 |
| WebMask.GradientMaskViewStyle | src/GradientMaskView.web.tsx:93-116 | no transition; the style is empty exactly when the defaulted intensity is ≤ 0; otherwise both mask properties hold the same gradient, with the defaulted direction's keyword and one stop per colour |
| WebMask.MaskStopsBlendAlpha | src/GradientMaskView.web.tsx:103-115 | at intensity m > 0, stop i has its position; a null colour gives transparent black; any other colour keeps r, g and b, and its alpha out of 255 is within half a unit of A·min(m, 1) + 255(1 − min(m, 1)) |
| AnimatedWebMask.AnimatedGradientMaskViewStyle | src/AnimatedGradientMaskView.web.tsx:123-136 | the style is empty exactly when the current intensity is ≤ 0; otherwise it has the fixed transition, and without it, it is the static component's style at that intensity |
| CrossBackend.CssGradientLine | src/GradientMaskView.web.tsx:27-40 | the gradient line of every side keyword in a box with area has positive length |
| CrossBackend.CssLineFraction | src/GradientMaskView.web.tsx:27-40 | along the CSS line a point falls at y/h for "to bottom", 1 − y/h for "to top", x/w for "to right" and 1 − x/w for "to left" |
| CrossBackend.BackendsShareGradientLine | android/src/main/java/expo/modules/gradientmask/GradientMaskView.kt:230-238 | for every direction name and every point, the Android axis and the CSS line of the web keyword give the same position along the gradient |
| CrossBackend.BackendsAgreeOnStopAlpha | src/GradientMaskView.web.tsx:84-85 | in every Android state that keeps the invariant, has area and has intensity m > 0, a draw keeps a child pixel under a mask pixel of colour i's alpha in the proportion of the blend; the web stop of colour i at the same intensity has an alpha out of 255 within half a unit of it, and equal at m = 1 |
| CrossBackend.BackendsAgreeAtZeroIntensity | src/GradientMaskView.web.tsx:103-107 | at intensity 0 an Android draw passes through and the web style is empty |

## Left out

- The pixel work is not modelled: `Bitmap.createBitmap`, the `LinearGradient` shader's interpolation, `Canvas.saveLayer`/`restoreToCount`, DST_IN compositing and anti-aliasing. The model records the image each bitmap holds, as a `MaskImage`. It records which draw branch is taken and with which filter, as a `DrawOutcome`. `KeptAlpha` gives the composite's effect on one pixel.
- The Paint, the `PorterDuffXfermode` and the `ColorMatrix` scratch fields are not modelled, and neither are `invalidate()`, `setBackgroundColor`, `setLayerType`, `Log.d` and the `super` calls. These are graphics-library and framework calls with no state the model tracks.
- The view's size is set by the Android framework before `onSizeChanged`. `AndroidView.GradientMaskView.OnSizeChanged` takes the new size as its arguments and stores it itself.
- Double→Float conversion and every IEEE effect are not modelled: intensities, locations and coordinates are exact reals.
- `WebMask.GradientMaskViewStyle` and `AnimatedWebMask.AnimatedGradientMaskViewStyle` require a position for every stop. A single colour without a location divides 0 by 0 in the source and gives NaN, which reals cannot express.
- `WebMask.BuildGradient` does not model the text of the gradient: it returns the keyword and the stops as values. The digits `Number.toString` prints for alphas and percentages are not modelled.
- `WebMask.ColorToRgba` takes integral colour numbers only: the numbers `processColor` gives.
- JavaScript's signed `>>` is modelled as the unsigned byte extraction it equals after `& 0xff`.
- The negative int32 that `<< 24` gives for an alpha byte ≥ 128 is not modelled: the final `>>> 0` turns it back into the unsigned sum `WebMask.PackArgb` computes.
- Undefined `colors` or `locations` arrays are not modelled. At intensity ≤ 0 the style is empty and neither array is read. Above 0, undefined `colors` throws at `colors.map`, and undefined `locations` throws at `locations[index]` (src/GradientMaskView.web.tsx:54) when there is at least one colour.
- Holes inside a `locations` array are not modelled. A location is present exactly when its index is below the array's length.
- React plumbing is not modelled: `View`, `StyleSheet`, `useMemo` caching, `useState`, and the Reanimated `useAnimatedReaction`/`runOnJS` bridge that copies the shared value into `currentOpacity` (src/AnimatedGradientMaskView.web.tsx:112-121). `AnimatedWebMask.AnimatedGradientMaskViewStyle` takes `currentOpacity` as a parameter.
- `src/AnimatedGradientMaskView.tsx`, the native animated wrapper, is not modelled: it has no logic of its own.
- AndroidMask.ApplyKeepsConsistent, AndroidMask.RunKeepsConsistent and AndroidMask.ReachableStatesConsistent hold for the corrected detach only. The source's detach leaves a clean flag with no bitmap, which breaks the invariant (`AndroidMask.DetachAsWrittenLosesMask`).
- AndroidMask.BaseImage and AndroidView.GradientMaskView.UpdateBaseMaskBitmap use the corrected neutral test. For one colour with one location the source builds a shader that throws; the model draws solid white instead (`AndroidMask.SingleColourReachesShader`).
- Pixel-level claims about the rendered edge alpha are out of reach without the shader, so the model states them per mask pixel: `AndroidMask.DrawKeepsBlendedAlpha` and `CrossBackend.BackendsAgreeOnStopAlpha`.

## Findings

| source | as written | input that shows it | evidently intended | confidence | as-written member | corrected member |
|---|---|---|---|---|---|---|
| android/src/main/java/expo/modules/gradientmask/GradientMaskView.kt:224-228 | `onDetachedFromWindow` recycles and drops the bitmap but leaves `baseBitmapInvalidated` false | a 100 x 100 view is laid out and drawn (masked), then detached and re-attached with the same frame, so `onSizeChanged` and a changed `onLayout` do not run; the next `dispatchDraw` finds no bitmap and a clean flag, and draws the children unmasked | dropping the bitmap also marks it dirty, so the next draw rebuilds and masks | medium, not executed | AndroidMask.DetachAsWrittenLosesMask | AndroidView.GradientMaskView.OnDetachedFromWindow |
| android/src/main/java/expo/modules/gradientmask/GradientMaskView.kt:191-213 | the neutral test admits a single colour with a single location, which reaches `LinearGradient(…, colors, positions, …)` | colors = [0x80000000], locations = [0.5]; Android's `LinearGradient` requires at least two colours and throws `IllegalArgumentException` | fewer than two colours count as neutral, giving a solid white mask | medium, not executed | AndroidMask.SingleColourReachesShader | AndroidMask.GradientBranchAcceptedByShader |
