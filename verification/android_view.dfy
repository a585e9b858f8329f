/**
 * The Android `GradientMaskView` as a class whose methods update its fields in place.
 * Every method keeps `Valid()` (the bitmap lifecycle and `AndroidMask.Consistent`)
 * and moves `State()` exactly as the matching step function of `AndroidMask` says.
 * The pixel work (bitmap allocation, shader, canvas, compositing) is represented by
 * the image recorded in each bitmap and by the `DrawOutcome` a draw returns.
 */
module AndroidView {
  import opened Optional
  import opened AndroidMask

  /**
   * A mask bitmap, abstracted to the image drawn into it, its place in its owner's
   * sequence of rebuilds, and whether `recycle()` has released it.
   */
  class MaskBitmap {
    ghost const generation: nat
    const image: MaskImage
    var recycled: bool

    constructor (ghost generation: nat, image: MaskImage)
      ensures this.generation == generation && this.image == image && !recycled
    {
      this.generation := generation;
      this.image := image;
      recycled := false;
    }

    /** `Bitmap.recycle()`. */
    method Recycle()
      modifies this
      ensures recycled
    {
      recycled := true;
    }
  }

  class GradientMaskView {
    var colors: Option<seq<bv32>>
    var locations: Option<seq<real>>
    var direction: string
    var maskOpacity: real
    var baseMaskBitmap: MaskBitmap?
    var baseBitmapInvalidated: bool
    /** The layout size (`getWidth()`, `getHeight()`), set by the host before `onSizeChanged`. */
    var width: int
    var height: int
    /** Every bitmap this view has built, oldest first. */
    ghost var Bitmaps: seq<MaskBitmap>

    /** The view as a `ViewState` value. */
    ghost function State(): ViewState
      reads this
    {
      ViewState(colors, locations, direction, maskOpacity, width, height, baseBitmapInvalidated,
        if baseMaskBitmap == null then None else Some(baseMaskBitmap.image), |Bitmaps|)
    }

    /**
     * The bitmap lifecycle: the held bitmap is the newest one built and is live; every
     * other bitmap built has been recycled, so at most one bitmap of this view is live.
     */
    ghost predicate Lifecycle()
      reads this, Bitmaps
    {
      && (forall i :: 0 <= i < |Bitmaps| ==> Bitmaps[i].generation == i)
      && (baseMaskBitmap != null ==> |Bitmaps| > 0 && baseMaskBitmap == Bitmaps[|Bitmaps| - 1] && !baseMaskBitmap.recycled)
      && (forall b :: b in Bitmaps && b != baseMaskBitmap ==> b.recycled)
    }

    ghost predicate Valid()
      reads this, Bitmaps
    {
      Lifecycle() && Consistent(State())
    }

    constructor ()
      ensures Valid() && State() == InitialState() && Bitmaps == []
    {
      colors := None;
      locations := None;
      direction := "top";
      maskOpacity := 1.0;
      baseMaskBitmap := null;
      baseBitmapInvalidated := true;
      width, height := 0, 0;
      Bitmaps := [];
    }

    method SetColors(colorArray: Option<seq<bv32>>)
      requires Valid()
      modifies this
      ensures Valid() && Bitmaps == old(Bitmaps) && baseMaskBitmap == old(baseMaskBitmap)
      ensures State() == SetColorsStep(old(State()), colorArray)
    {
      colors := colorArray;
      baseBitmapInvalidated := true;
    }

    method SetLocations(locationArray: Option<seq<real>>)
      requires Valid()
      modifies this
      ensures Valid() && Bitmaps == old(Bitmaps) && baseMaskBitmap == old(baseMaskBitmap)
      ensures State() == SetLocationsStep(old(State()), locationArray)
    {
      locations := locationArray;
      baseBitmapInvalidated := true;
    }

    method SetDirection(dir: string)
      requires Valid()
      modifies this
      ensures Valid() && Bitmaps == old(Bitmaps) && baseMaskBitmap == old(baseMaskBitmap)
      ensures State() == SetDirectionStep(old(State()), dir)
    {
      direction := dir;
      baseBitmapInvalidated := true;
    }

    method SetMaskOpacity(opacity: real)
      requires Valid()
      modifies this
      ensures Valid() && Bitmaps == old(Bitmaps) && baseMaskBitmap == old(baseMaskBitmap)
      ensures State() == SetMaskOpacityStep(old(State()), opacity)
    {
      var newOpacity := Clamp01(opacity);
      if newOpacity != maskOpacity {
        maskOpacity := newOpacity;
      }
    }

    /**
     * `updateBaseMaskBitmap`: with area, recycle the held bitmap, then build and hold
     * a fresh one with the base image of the current props and size.
     */
    method UpdateBaseMaskBitmap()
      requires Lifecycle()
      modifies this, baseMaskBitmap
      ensures Lifecycle()
      ensures State() == RebuildStep(old(State()))
      ensures width > 0 && height > 0 ==>
        && fresh(baseMaskBitmap)
        && Bitmaps == old(Bitmaps) + [baseMaskBitmap]
        && (old(baseMaskBitmap) != null ==> old(baseMaskBitmap).recycled)
      ensures !(width > 0 && height > 0) ==> Bitmaps == old(Bitmaps) && baseMaskBitmap == old(baseMaskBitmap)
    {
      if width <= 0 || height <= 0 {
        return;
      }
      if baseMaskBitmap != null {
        baseMaskBitmap.Recycle();
      }
      var image: MaskImage;
      if IsNeutral(colors, locations) {
        image := SolidWhite(width, height);
      } else {
        var maskColors := MaskColors(colors.value);
        var axis := GradientCoordinates(direction, width, height);
        image := LinearMask(width, height, axis, maskColors, locations.value);
      }
      var bitmap := new MaskBitmap(|Bitmaps|, image);
      Bitmaps := Bitmaps + [bitmap];
      baseMaskBitmap := bitmap;
    }

    /** `onSizeChanged(w, h, oldw, oldh)`, with the host's size update folded in. */
    method OnSizeChanged(w: int, h: int)
      requires Valid()
      modifies this, baseMaskBitmap
      ensures Valid()
      ensures State() == SizeChangedStep(old(State()), w, h)
      ensures w > 0 && h > 0 ==>
        && fresh(baseMaskBitmap)
        && Bitmaps == old(Bitmaps) + [baseMaskBitmap]
        && (old(baseMaskBitmap) != null ==> old(baseMaskBitmap).recycled)
      ensures !(w > 0 && h > 0) ==> Bitmaps == old(Bitmaps) && baseMaskBitmap == old(baseMaskBitmap)
    {
      width, height := w, h;
      if w > 0 && h > 0 {
        UpdateBaseMaskBitmap();
        baseBitmapInvalidated := false;
      }
    }

    /** `onLayout(changed, l, t, r, b)`: only `changed` matters. */
    method OnLayout(changed: bool)
      requires Valid()
      modifies this
      ensures Valid() && Bitmaps == old(Bitmaps) && baseMaskBitmap == old(baseMaskBitmap)
      ensures State() == LayoutStep(old(State()), changed)
    {
      if changed {
        baseBitmapInvalidated := true;
      }
    }

    /**
     * `dispatchDraw`: returns what the draw does. A masked draw composites the held
     * bitmap, which is live.
     */
    method DispatchDraw() returns (outcome: DrawOutcome)
      requires Valid()
      modifies this, baseMaskBitmap
      ensures Valid()
      ensures (State(), outcome) == DrawStep(old(State()))
      ensures old(baseBitmapInvalidated) && width > 0 && height > 0 ==>
        && fresh(baseMaskBitmap)
        && Bitmaps == old(Bitmaps) + [baseMaskBitmap]
        && (old(baseMaskBitmap) != null ==> old(baseMaskBitmap).recycled)
      ensures !(old(baseBitmapInvalidated) && width > 0 && height > 0) ==>
        Bitmaps == old(Bitmaps) && baseMaskBitmap == old(baseMaskBitmap)
      ensures outcome.Masked? ==> baseMaskBitmap != null && !baseMaskBitmap.recycled && outcome.mask == baseMaskBitmap.image
    {
      if width <= 0 || height <= 0 {
        return PassThrough;
      }
      if baseBitmapInvalidated {
        UpdateBaseMaskBitmap();
        baseBitmapInvalidated := false;
      }
      var bitmap := baseMaskBitmap;
      if bitmap == null || maskOpacity <= 0.0 {
        return PassThrough;
      }
      var filter := ColorFilterFor(maskOpacity);
      outcome := Masked(bitmap.image, filter);
    }

    /**
     * `onDetachedFromWindow`: recycle and drop the bitmap, leaving no live bitmap; the
     * flag is also set so that a re-attached view rebuilds (see Findings in README).
     */
    method OnDetachedFromWindow()
      requires Valid()
      modifies this, baseMaskBitmap
      ensures Valid()
      ensures State() == DetachStep(old(State()))
      ensures baseMaskBitmap == null && Bitmaps == old(Bitmaps)
      ensures forall b :: b in Bitmaps ==> b.recycled
    {
      if baseMaskBitmap != null {
        baseMaskBitmap.Recycle();
      }
      baseMaskBitmap := null;
      baseBitmapInvalidated := true;
    }
  }
}
