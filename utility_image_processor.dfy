/**
 * The transparency-aware `ImageProcessor` (utility/image_processor.py):
 * it keeps RGBA images as RGBA, can flatten them onto a background colour,
 * enhances only the colour channels and quantizes the colours while
 * reattaching the alpha plane.
 */
module UtilityProcessor {
  import opened Pil
  import opened Formats
  import opened Pixelation

  /**
   * `_has_transparency`: decided by the mode and the 'transparency' key
   * alone, never by looking at pixel values. An image judged not
   * transparent is fully opaque.
   */
  predicate HasTransparency(im: Image)
    ensures !HasTransparency(im) ==> Opaque(im)
  {
    im.mode in {RGBA, LA} || (im.mode == P && im.transparencyInfo)
  }

  /** The mode conversion of `load_image`: RGBA for transparent images, RGB for all others. */
  function Normalize(im: Image): (r: Image)
    ensures r.mode == (if HasTransparency(im) then RGBA else RGB)
    ensures SameSize(r, im) && r.pixels == im.pixels
    ensures r.format == (if im.mode == r.mode then im.format else None)
  {
    if HasTransparency(im) then
      if im.mode != RGBA then ConvertRGBA(im) else im
    else
      if im.mode != RGB then
        var rgb := ConvertRGB(im);
        assert rgb.pixels == im.pixels;
        rgb
      else im
  }

  /**
   * `_composite_with_background`: an RGB image of the same size; where the
   * source is fully opaque its colour shows, where it is fully transparent
   * the background colour shows.
   */
  function CompositeWithBackground(lib: Library, image: Image, background: Rgb): (r: Image)
    requires Lawful(lib)
    ensures r.mode == RGB && SameSize(r, image) && Opaque(r)
    ensures image.mode == RGBA ==> forall i :: 0 <= i < |r.pixels| ==>
      (image.pixels[i].alpha == 255 ==> r.pixels[i].color == image.pixels[i].color)
      && (image.pixels[i].alpha == 0 ==> r.pixels[i].color == background)
    ensures image.mode != RGBA ==> forall i :: 0 <= i < |r.pixels| ==>
      r.pixels[i].color == image.pixels[i].color
  {
    var canvas := NewImage(RGB, image.width, image.height, Pixel(background, 255));
    if image.mode == RGBA then PasteMasked(lib.blend, canvas, image) else Paste(canvas, image)
  }

  /**
   * The RGB image an enhancer is given for an RGBA image: a black RGB image
   * with the RGBA image pasted through its own alpha.
   */
  function RgbPart(lib: Library, img: Image): (r: Image)
    requires Lawful(lib)
    ensures r.mode == RGB && SameSize(r, img)
  {
    var canvas := NewImage(RGB, img.width, img.height, Pixel(Black, 255));
    if img.mode == RGBA then PasteMasked(lib.blend, canvas, img) else Paste(canvas, img)
  }

  /**
   * One enhancement stage (contrast or saturation) as the code runs it once
   * the factor differs from 1.0: on RGBA the enhancer sees only the colour
   * channels and the alpha plane is put back unchanged.
   */
  function EnhanceChannels(lib: Library, enhance: (Image, real) -> Option<Image>, img: Image,
                           factor: real): (r: Option<Image>)
    requires Lawful(lib) && EnhanceLawful(enhance)
    ensures r.Some? ==> SameSize(r.value, img) && r.value.mode == img.mode
    ensures r.Some? && img.mode == RGBA ==> AlphaPlane(r.value) == AlphaPlane(img)
    ensures r.None? <==> enhance(if img.mode == RGBA then RgbPart(lib, img) else img, factor).None?
    ensures img.mode != RGBA ==> r == enhance(img, factor)
    ensures r.Some? && img.mode == RGBA ==>
      forall i :: 0 <= i < |r.value.pixels| ==>
        r.value.pixels[i].color == enhance(RgbPart(lib, img), factor).value.pixels[i].color
  {
    if img.mode == RGBA then
      match enhance(RgbPart(lib, img), factor)
      case None => None
      case Some(enhancedRgb) =>
        var enhanced := Paste(NewImage(RGBA, img.width, img.height, Pixel(Black, 0)), enhancedRgb);
        Some(PutAlpha(enhanced, AlphaPlane(img)))
    else
      enhance(img, factor)
  }

  /**
   * `quantize_colors_with_alpha`: on RGBA, the colours are quantized and the
   * input's alpha plane is reattached; any other mode comes back RGB.
   */
  function QuantizeColorsWithAlpha(lib: Library, image: Image, numColors: int): (r: Option<Image>)
    requires Lawful(lib)
    ensures r.Some? ==> SameSize(r.value, image) && |Colors(r.value)| <= numColors
    ensures r.Some? ==> r.value.mode == (if image.mode == RGBA then RGBA else RGB)
    ensures r.Some? && image.mode == RGBA ==> AlphaPlane(r.value) == AlphaPlane(image)
    ensures r.Some? && image.mode != RGBA ==> Opaque(r.value)
    ensures r.None? <==> lib.quantize(if image.mode == RGBA then ConvertRGB(image) else image, numColors).None?
  {
    if image.mode == RGBA then
      var rgbPart := ConvertRGB(image);
      var alphaPart := AlphaPlane(image);
      match QuantizeColors(lib, rgbPart, numColors)
      case None => None
      case Some(quantizedRgb) =>
        var canvas := Paste(NewImage(RGBA, image.width, image.height, Pixel(Black, 0)), quantizedRgb);
        var quantizedRgba := PutAlpha(canvas, alphaPart);
        SameColorsPointwise(quantizedRgba, quantizedRgb);
        Some(quantizedRgba)
    else
      QuantizeColors(lib, image, numColors)
  }

  /**
   * Stage 2 of `apply_pixelation`: a transparent image that is not to be
   * preserved is flattened to RGB; any other image passes through as it is.
   */
  function CompositeStage(lib: Library, img: Image, hasTransparency: bool, preserveTransparency: bool,
                          background: Rgb): (r: Image)
    requires Lawful(lib)
    ensures SameSize(r, img)
    ensures r.mode == (if hasTransparency && !preserveTransparency then RGB else img.mode)
    ensures !(hasTransparency && !preserveTransparency) ==> r == img
  {
    if hasTransparency && !preserveTransparency then CompositeWithBackground(lib, img, background) else img
  }

  /**
   * Stages 2 and 3 of `apply_pixelation`: compositing, then contrast, then
   * saturation. The working image keeps the original's size; it is RGB if it
   * was composited and otherwise keeps the original's mode and, for RGBA,
   * its alpha plane.
   */
  function Working(lib: Library, original: Image, hasTransparency: bool, background: Rgb,
                   contrast: real, saturation: real, preserveTransparency: bool): (r: Option<Image>)
    requires Lawful(lib)
    ensures r.Some? ==> SameSize(r.value, original)
    ensures r.Some? ==> r.value.mode == (if hasTransparency && !preserveTransparency then RGB else original.mode)
    ensures r.Some? && !(hasTransparency && !preserveTransparency) && original.mode == RGBA ==>
              AlphaPlane(r.value) == AlphaPlane(original)
  {
    var img := CompositeStage(lib, original, hasTransparency, preserveTransparency, background);
    var afterContrast := if contrast != 1.0 then EnhanceChannels(lib, lib.contrast, img, contrast) else Some(img);
    match afterContrast
    case None => None
    case Some(c) => if saturation != 1.0 then EnhanceChannels(lib, lib.color, c, saturation) else Some(c)
  }

  /**
   * Stages 4 to 7 of `apply_pixelation`: size guard, downscale, quantize,
   * upscale. Division by zero is the only way to a `ZeroDivision` failure,
   * and a result has the input's size and is RGBA exactly for RGBA input.
   */
  function Reduce(lib: Library, img: Image, pixelSize: int, numColors: int): (r: Outcome)
    requires Lawful(lib)
    ensures r == Failed(ZeroDivision) <==> pixelSize == 0
    ensures r.Done? ==> SameSize(r.image, img) && r.image.mode == (if img.mode == RGBA then RGBA else RGB)
  {
    if pixelSize == 0 then Failed(ZeroDivision)
    else
      var newWidth, newHeight := FloorDiv(img.width, pixelSize), FloorDiv(img.height, pixelSize);
      if newWidth == 0 || newHeight == 0 then Failed(EmptyReduction)
      else match lib.resize(img, newWidth, newHeight)
        case None => Failed(LibraryError)
        case Some(small) =>
          match QuantizeColorsWithAlpha(lib, small, numColors)
          case None => Failed(LibraryError)
          case Some(quantized) =>
            match lib.resize(quantized, img.width, img.height)
            case None => Failed(LibraryError)
            case Some(up) => Done(up)
  }

  /**
   * What `apply_pixelation` computes from the processor's state and its
   * arguments: `NoImage` exactly when nothing is loaded, and otherwise an
   * image of the original's size or the stage that failed.
   */
  function Pixelate(lib: Library, original: Option<Image>, hasTransparency: bool, background: Rgb,
                    pixelSize: int, numColors: int, contrast: real, saturation: real,
                    preserveTransparency: bool): (r: Outcome)
    requires Lawful(lib)
    ensures r == Failed(NoImage) <==> original.None?
    ensures r.Done? ==> original.Some? && SameSize(r.image, original.value)
  {
    match original
    case None => Failed(NoImage)
    case Some(o) =>
      match Working(lib, o, hasTransparency, background, contrast, saturation, preserveTransparency)
      case None => Failed(LibraryError)
      case Some(img) => Reduce(lib, img, pixelSize, numColors)
  }

  /** What `get_image_info` reports; None is the empty dictionary. */
  datatype ImageInfo = ImageInfo(width: nat, height: nat, mode: Mode, hasTransparency: bool,
                                 format: Option<string>)

  function InfoFor(original: Option<Image>, hasTransparency: bool): (info: Option<ImageInfo>)
    ensures info.None? <==> original.None?
  {
    match original
    case None => None
    case Some(o) => Some(ImageInfo(o.width, o.height, o.mode, hasTransparency, o.format))
  }

  class ImageProcessor {
    var original: Option<Image>
    var processed: Option<Image>
    var hasTransparency: bool
    var backgroundColor: Rgb

    /** The loaded image is RGBA exactly when it was found transparent, RGB otherwise. */
    ghost predicate Valid()
      reads this
    {
      original.Some? ==> original.value.mode == (if hasTransparency then RGBA else RGB)
    }

    constructor ()
      ensures Valid()
      ensures original == None && processed == None && !hasTransparency && backgroundColor == White
    {
      original := None;
      processed := None;
      hasTransparency := false;
      backgroundColor := White;
    }

    /**
     * `load_image`; `decoded` is what `Image.open` returned, None when it
     * raised. A successful load keeps the previous processed image.
     */
    method LoadImage(decoded: Option<Image>) returns (ok: bool)
      requires Valid()
      modifies this
      ensures Valid()
      ensures ok == decoded.Some?
      ensures ok ==> original == Some(Normalize(decoded.value))
                     && hasTransparency == HasTransparency(decoded.value)
      ensures !ok ==> original == old(original) && hasTransparency == old(hasTransparency)
      ensures processed == old(processed) && backgroundColor == old(backgroundColor)
    {
      if decoded.None? {
        return false;
      }
      var image := decoded.value;
      hasTransparency := HasTransparency(image);
      if hasTransparency {
        if image.mode != RGBA {
          image := ConvertRGBA(image);
        }
      } else {
        if image.mode != RGB {
          image := ConvertRGB(image);
        }
      }
      original := Some(image);
      return true;
    }

    /**
     * `apply_pixelation`. On success the processed image is replaced by the
     * pipeline's result; on every failure nothing changes. The original is
     * never touched.
     */
    method ApplyPixelation(lib: Library, pixelSize: int, numColors: int, contrast: real := 1.0,
                           saturation: real := 1.0, preserveTransparency: bool := true)
      returns (ok: bool)
      requires Valid() && Lawful(lib)
      modifies this
      ensures Valid()
      ensures original == old(original) && hasTransparency == old(hasTransparency)
      ensures backgroundColor == old(backgroundColor)
      ensures var out := Pixelate(lib, original, hasTransparency, backgroundColor, pixelSize,
                                  numColors, contrast, saturation, preserveTransparency);
        ok == out.Done? && processed == (if ok then Some(out.image) else old(processed))
      ensures ok ==> original.Some? && SameSize(processed.value, original.value)
                     && |Colors(processed.value)| <= numColors
    {
      if original.None? {
        return false;
      }
      ghost var o := original.value;
      ghost var working := Working(lib, o, hasTransparency, backgroundColor, contrast, saturation,
                                   preserveTransparency);
      ghost var out := Pixelate(lib, original, hasTransparency, backgroundColor, pixelSize,
                                numColors, contrast, saturation, preserveTransparency);
      PixelateResult(lib, original, hasTransparency, backgroundColor, pixelSize, numColors,
                     contrast, saturation, preserveTransparency);
      var img := original.value;
      if hasTransparency && !preserveTransparency {
        img := CompositeWithBackground(lib, img, backgroundColor);
      }
      assert img == CompositeStage(lib, o, hasTransparency, preserveTransparency, backgroundColor);
      if contrast != 1.0 {
        var enhanced := EnhanceChannels(lib, lib.contrast, img, contrast);
        if enhanced.None? {
          assert working.None?;
          return false;
        }
        img := enhanced.value;
      }
      if saturation != 1.0 {
        var enhanced := EnhanceChannels(lib, lib.color, img, saturation);
        if enhanced.None? {
          assert working.None?;
          return false;
        }
        img := enhanced.value;
      }
      assert working == Some(img);
      ghost var reduced := Reduce(lib, img, pixelSize, numColors);
      assert reduced == out;
      var width, height := img.width, img.height;
      if pixelSize == 0 {
        assert reduced.Failed?;
        return false;
      }
      var newWidth, newHeight := FloorDiv(width, pixelSize), FloorDiv(height, pixelSize);
      if newWidth == 0 || newHeight == 0 {
        assert reduced.Failed?;
        return false;
      }
      var small := lib.resize(img, newWidth, newHeight);
      if small.None? {
        assert reduced.Failed?;
        return false;
      }
      var quantized := QuantizeColorsWithAlpha(lib, small.value, numColors);
      if quantized.None? {
        assert reduced.Failed?;
        return false;
      }
      var up := lib.resize(quantized.value, width, height);
      if up.None? {
        assert reduced.Failed?;
        return false;
      }
      assert reduced == Done(up.value);
      processed := up;
      return true;
    }

    /** `save_image`; `encoder` stands for the codec's `save`, true when it wrote the file. */
    method SaveImage(encoder: (Image, string, SaveOptions) -> bool, path: string,
                     quality: int := DefaultQuality) returns (ok: bool)
      ensures ok == (processed.Some? && encoder(processed.value, path, SaveOptionsFor(path, quality)))
    {
      if processed.None? {
        return false;
      }
      ok := encoder(processed.value, path, SaveOptionsFor(path, quality));
    }

    method GetProcessedImage() returns (image: Option<Image>)
      ensures image == processed
    {
      image := processed;
    }

    method GetOriginalImage() returns (image: Option<Image>)
      ensures image == original
    {
      image := original;
    }

    method SetBackgroundColor(color: Rgb)
      requires Valid()
      modifies this
      ensures Valid()
      ensures backgroundColor == color
      ensures original == old(original) && processed == old(processed)
      ensures hasTransparency == old(hasTransparency)
    {
      backgroundColor := color;
    }

    method GetBackgroundColor() returns (color: Rgb)
      ensures color == backgroundColor
    {
      color := backgroundColor;
    }

    method HasImageTransparency() returns (t: bool)
      ensures t == hasTransparency
    {
      t := hasTransparency;
    }

    /** `get_image_info`: nothing before a load, otherwise the loaded image's size, mode and format. */
    method GetImageInfo() returns (info: Option<ImageInfo>)
      requires Valid()
      ensures info.None? <==> original.None?
      ensures info.Some? ==> info.value.width == original.value.width
                             && info.value.height == original.value.height
                             && info.value.hasTransparency == hasTransparency
                             && info.value.mode == original.value.mode
                             && (info.value.mode == RGBA <==> hasTransparency)
                             && info.value.format == original.value.format
    {
      info := InfoFor(original, hasTransparency);
    }
  }

  /** A colour set with `set_background_color` is what `get_background_color` returns. */
  method BackgroundColorRoundTrip(p: ImageProcessor, color: Rgb) returns (got: Rgb)
    requires p.Valid()
    modifies p
    ensures got == color
  {
    p.SetBackgroundColor(color);
    got := p.GetBackgroundColor();
  }

  // ----- properties of the pipeline -----

  /** The size guard and the division by `pixel_size`. */
  lemma ReduceGuards(lib: Library, img: Image, pixelSize: int, numColors: int)
    requires Lawful(lib)
    ensures pixelSize == 0 ==> Reduce(lib, img, pixelSize, numColors) == Failed(ZeroDivision)
    ensures pixelSize >= 1 ==>
      (Reduce(lib, img, pixelSize, numColors) == Failed(EmptyReduction)
       <==> img.width < pixelSize || img.height < pixelSize)
    ensures pixelSize < 0 ==> Reduce(lib, img, pixelSize, numColors).Failed?
  {
    if pixelSize >= 1 {
      FloorDivZero(img.width, pixelSize);
      FloorDivZero(img.height, pixelSize);
    } else if pixelSize < 0 {
      FloorDivNegative(img.width, pixelSize);
      FloorDivNegative(img.height, pixelSize);
    }
  }

  /**
   * A successful reduction has the input's size and at most `numColors`
   * colours; RGBA stays RGBA with no alpha value that was not there before,
   * anything else comes out fully opaque RGB.
   */
  lemma ReduceResult(lib: Library, img: Image, pixelSize: int, numColors: int)
    requires Lawful(lib)
    ensures var out := Reduce(lib, img, pixelSize, numColors);
      out.Done? ==>
        SameSize(out.image, img) && |Colors(out.image)| <= numColors
        && out.image.mode == (if img.mode == RGBA then RGBA else RGB)
        && (img.mode == RGBA ==> Alphas(out.image) <= Alphas(img))
        && (img.mode != RGBA ==> Opaque(out.image))
  {
    if pixelSize != 0 {
      var newWidth, newHeight := FloorDiv(img.width, pixelSize), FloorDiv(img.height, pixelSize);
      if newWidth != 0 && newHeight != 0 && lib.resize(img, newWidth, newHeight).Some? {
        var small := lib.resize(img, newWidth, newHeight).value;
        var q := QuantizeColorsWithAlpha(lib, small, numColors);
        if q.Some? && lib.resize(q.value, img.width, img.height).Some? {
          var up := lib.resize(q.value, img.width, img.height).value;
          ReducedPalette(small, img, q.value, up);
          if img.mode == RGBA {
            SameAlphasPointwise(q.value, small);
          } else {
            DrawnFromOpaque(up, q.value);
          }
        }
      }
    }
  }

  /** Down- and upscaling by copying pixels keep the quantizer's palette bound and add no alpha value. */
  lemma ReducedPalette(small: Image, img: Image, quantized: Image, up: Image)
    requires DrawnFrom(small, img) && DrawnFrom(up, quantized)
    ensures |Colors(up)| <= |Colors(quantized)|
    ensures Alphas(small) <= Alphas(img) && Alphas(up) <= Alphas(quantized)
  {
    DrawnFromSubsets(small, img);
    DrawnFromSubsets(up, quantized);
    SubsetNoLarger(Colors(up), Colors(quantized));
  }

  /**
   * What a successful `apply_pixelation` delivers from a state the processor
   * can be in: the original's size, at most `numColors` colours, RGBA exactly
   * when a transparent image is preserved (then with alpha values taken from
   * the original), and otherwise a fully opaque RGB image.
   */
  lemma PixelateResult(lib: Library, original: Option<Image>, hasTransparency: bool, background: Rgb,
                       pixelSize: int, numColors: int, contrast: real, saturation: real,
                       preserveTransparency: bool)
    requires Lawful(lib)
    requires original.Some? ==> original.value.mode == (if hasTransparency then RGBA else RGB)
    ensures var out := Pixelate(lib, original, hasTransparency, background, pixelSize, numColors,
                                contrast, saturation, preserveTransparency);
      out.Done? ==>
        original.Some? && SameSize(out.image, original.value) && |Colors(out.image)| <= numColors
        && (out.image.mode == RGBA <==> hasTransparency && preserveTransparency)
        && (out.image.mode == RGBA ==> Alphas(out.image) <= Alphas(original.value))
        && (out.image.mode != RGBA ==> out.image.mode == RGB && Opaque(out.image))
  {
    var out := Pixelate(lib, original, hasTransparency, background, pixelSize, numColors,
                        contrast, saturation, preserveTransparency);
    if out.Done? {
      var o := original.value;
      var w := Working(lib, o, hasTransparency, background, contrast, saturation, preserveTransparency).value;
      ReduceResult(lib, w, pixelSize, numColors);
      if w.mode == RGBA {
        SameAlphasPointwise(w, o);
      }
    }
  }

  /**
   * `apply_pixelation` fails without a loaded image, for a non-positive
   * `pixel_size`, and whenever the block size exceeds a side of the image;
   * it succeeds only if the image holds at least one whole block.
   */
  lemma PixelateGuards(lib: Library, original: Option<Image>, hasTransparency: bool, background: Rgb,
                       pixelSize: int, numColors: int, contrast: real, saturation: real,
                       preserveTransparency: bool)
    requires Lawful(lib)
    ensures var out := Pixelate(lib, original, hasTransparency, background, pixelSize, numColors,
                                contrast, saturation, preserveTransparency);
      (original.None? ==> out == Failed(NoImage))
      && (pixelSize <= 0 ==> out.Failed?)
      && ((original.Some? && pixelSize >= 1
           && (original.value.width < pixelSize || original.value.height < pixelSize)) ==> out.Failed?)
      && (out.Done? ==> original.Some? && 1 <= pixelSize
                        && pixelSize <= original.value.width && pixelSize <= original.value.height)
  {
    if original.Some? {
      var o := original.value;
      var w := Working(lib, o, hasTransparency, background, contrast, saturation, preserveTransparency);
      if w.Some? {
        ReduceGuards(lib, w.value, pixelSize, numColors);
      }
    }
  }

  /** Compositing turns a transparent RGBA original into a fully opaque RGB result. */
  lemma CompositingFlattens(lib: Library, original: Image, pixelSize: int, numColors: int,
                            background: Rgb, contrast: real, saturation: real)
    requires Lawful(lib) && original.mode == RGBA
    ensures var out := Pixelate(lib, Some(original), true, background, pixelSize, numColors,
                                contrast, saturation, false);
      out.Done? ==> out.image.mode == RGB && Opaque(out.image)
  {
    PixelateResult(lib, Some(original), true, background, pixelSize, numColors, contrast, saturation, false);
  }

  /**
   * Compositing happens before enhancement: once a transparent image is
   * flattened, the contrast enhancer is given the composited RGB image
   * itself, with no alpha handling.
   */
  lemma CompositeBeforeEnhancement(lib: Library, original: Image, background: Rgb, contrast: real)
    requires Lawful(lib) && contrast != 1.0
    ensures Working(lib, original, true, background, contrast, 1.0, false)
            == lib.contrast(CompositeWithBackground(lib, original, background), contrast)
  {
  }

  /**
   * While transparency is preserved (the default, and the only way the
   * application calls `apply_pixelation`), the background colour plays no
   * part in the result.
   */
  lemma BackgroundUnusedWhenPreserving(lib: Library, original: Option<Image>, hasTransparency: bool,
                                       background1: Rgb, background2: Rgb, pixelSize: int,
                                       numColors: int, contrast: real, saturation: real)
    requires Lawful(lib)
    ensures Pixelate(lib, original, hasTransparency, background1, pixelSize, numColors, contrast, saturation, true)
            == Pixelate(lib, original, hasTransparency, background2, pixelSize, numColors, contrast, saturation, true)
  {
  }

  /**
   * A contrast of exactly 1.0 skips the contrast stage: whatever the
   * saturation, the result does not depend on the contrast enhancer.
   */
  lemma UnitContrastSkipsEnhancer(lib: Library, enhancer: (Image, real) -> Option<Image>,
                                  original: Option<Image>, hasTransparency: bool, background: Rgb,
                                  pixelSize: int, numColors: int, saturation: real,
                                  preserveTransparency: bool)
    requires Lawful(lib) && EnhanceLawful(enhancer)
    ensures var other := lib.(contrast := enhancer);
      Lawful(other)
      && Pixelate(lib, original, hasTransparency, background, pixelSize, numColors, 1.0, saturation, preserveTransparency)
         == Pixelate(other, original, hasTransparency, background, pixelSize, numColors, 1.0, saturation, preserveTransparency)
  {
    var other := lib.(contrast := enhancer);
    assert Lawful(other);
    if original.Some? {
      var w := Working(lib, original.value, hasTransparency, background, 1.0, saturation, preserveTransparency);
      assert w == Working(other, original.value, hasTransparency, background, 1.0, saturation, preserveTransparency);
      if w.Some? {
        ReduceIgnoresEnhancers(lib, other, w.value, pixelSize, numColors);
      }
    }
  }

  /**
   * A saturation of exactly 1.0 skips the saturation stage: whatever the
   * contrast, the result does not depend on the colour enhancer.
   */
  lemma UnitSaturationSkipsEnhancer(lib: Library, enhancer: (Image, real) -> Option<Image>,
                                    original: Option<Image>, hasTransparency: bool, background: Rgb,
                                    pixelSize: int, numColors: int, contrast: real,
                                    preserveTransparency: bool)
    requires Lawful(lib) && EnhanceLawful(enhancer)
    ensures var other := lib.(color := enhancer);
      Lawful(other)
      && Pixelate(lib, original, hasTransparency, background, pixelSize, numColors, contrast, 1.0, preserveTransparency)
         == Pixelate(other, original, hasTransparency, background, pixelSize, numColors, contrast, 1.0, preserveTransparency)
  {
    var other := lib.(color := enhancer);
    assert Lawful(other);
    if original.Some? {
      var w := Working(lib, original.value, hasTransparency, background, contrast, 1.0, preserveTransparency);
      assert w == Working(other, original.value, hasTransparency, background, contrast, 1.0, preserveTransparency);
      if w.Some? {
        ReduceIgnoresEnhancers(lib, other, w.value, pixelSize, numColors);
      }
    }
  }

  /** The reduction stages never consult the enhancers. */
  lemma ReduceIgnoresEnhancers(lib: Library, other: Library, img: Image, pixelSize: int, numColors: int)
    requires Lawful(lib) && Lawful(other)
    requires other.resize == lib.resize && other.quantize == lib.quantize
    ensures Reduce(lib, img, pixelSize, numColors) == Reduce(other, img, pixelSize, numColors)
  {
    forall im: Image | true
      ensures QuantizeColorsWithAlpha(lib, im, numColors) == QuantizeColorsWithAlpha(other, im, numColors)
    {
    }
  }

  /**
   * A contrast other than 1.0 does run its enhancer: with a contrast
   * enhancer that raises, every run on a loaded image fails.
   */
  lemma OtherContrastRunsEnhancer(lib: Library, original: Image, hasTransparency: bool, background: Rgb,
                                  pixelSize: int, numColors: int, contrast: real, saturation: real,
                                  preserveTransparency: bool)
    requires Lawful(lib) && contrast != 1.0
    ensures var failing := lib.(contrast := Failing);
      Lawful(failing)
      && Pixelate(failing, Some(original), hasTransparency, background, pixelSize, numColors,
                  contrast, saturation, preserveTransparency) == Failed(LibraryError)
  {
    var failing := lib.(contrast := Failing);
    assert EnhanceLawful(Failing);
    assert Lawful(failing);
  }

  /**
   * A saturation other than 1.0 does run its enhancer: with a colour
   * enhancer that raises, every run on a loaded image fails.
   */
  lemma OtherSaturationRunsEnhancer(lib: Library, original: Image, hasTransparency: bool, background: Rgb,
                                    pixelSize: int, numColors: int, contrast: real, saturation: real,
                                    preserveTransparency: bool)
    requires Lawful(lib) && saturation != 1.0
    ensures var failing := lib.(color := Failing);
      Lawful(failing)
      && Pixelate(failing, Some(original), hasTransparency, background, pixelSize, numColors,
                  contrast, saturation, preserveTransparency) == Failed(LibraryError)
  {
    var failing := lib.(color := Failing);
    assert EnhanceLawful(Failing);
    assert Lawful(failing);
  }

  /**
   * For an RGBA image the enhancer sees the colours composited over black:
   * opaque pixels keep their colour, fully transparent ones turn black.
   */
  lemma EnhancerInputOverBlack(lib: Library, img: Image)
    requires Lawful(lib) && img.mode == RGBA
    ensures var part := RgbPart(lib, img);
      part == CompositeWithBackground(lib, img, Black)
      && forall i :: 0 <= i < |part.pixels| ==>
           (img.pixels[i].alpha == 255 ==> part.pixels[i].color == img.pixels[i].color)
           && (img.pixels[i].alpha == 0 ==> part.pixels[i].color == Black)
  {
  }

  /**
   * Loading is stable: a loaded image is judged as before and loading it
   * again changes nothing.
   */
  lemma NormalizeIdempotent(im: Image)
    ensures HasTransparency(Normalize(im)) == HasTransparency(im)
    ensures Normalize(Normalize(im)) == Normalize(im)
  {
  }

  /**
   * Detection looks at the mode and the 'transparency' key only: two images
   * that agree on those are judged alike, whatever their pixels.
   */
  lemma TransparencyIgnoresPixels(a: Image, b: Image)
    requires a.mode == b.mode && a.transparencyInfo == b.transparencyInfo
    ensures HasTransparency(a) == HasTransparency(b)
  {
  }

  /** So a fully opaque RGBA image still counts as transparent. */
  lemma OpaqueRgbaCountsAsTransparent()
    ensures var im: Image := Raster(RGBA, 1, 1, [Pixel(White, 255)], false, None);
      Opaque(im) && HasTransparency(im)
  {
  }

  /**
   * After a successful load `get_image_info` reports the file's size, RGBA
   * exactly for transparent images, and the file's format only when no
   * conversion was needed (a converted image has no format).
   */
  lemma InfoAfterLoad(im: Image)
    ensures var info := InfoFor(Some(Normalize(im)), HasTransparency(im));
      info.Some? && info.value.width == im.width && info.value.height == im.height
      && (info.value.mode == RGBA <==> HasTransparency(im))
      && info.value.hasTransparency == HasTransparency(im)
      && info.value.format == (if im.mode == info.value.mode then im.format else None)
  {
  }
}
