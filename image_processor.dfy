/**
 * The RGB-only `ImageProcessor` (image_processor.py): every image is
 * converted to RGB on load, so transparency is discarded, and the pipeline
 * is enhancement, downscale, quantization and upscale.
 */
module BasicProcessor {
  import opened Pil
  import opened Formats
  import opened Pixelation

  /** The conversion of `load_image`: anything that is not RGB is converted to RGB. */
  function Normalize(im: Image): (r: Image)
    ensures r.mode == RGB && SameSize(r, im) && Opaque(r)
    ensures Colors(r) == Colors(im)
    ensures r.format == (if im.mode == RGB then im.format else None)
  {
    if im.mode != RGB then
      var rgb := ConvertRGB(im);
      SameColorsPointwise(rgb, im);
      rgb
    else im
  }

  /** The enhancement stages of `apply_pixelation`: contrast, then saturation, each skipped at 1.0. */
  function Working(lib: Library, original: Image, contrast: real, saturation: real): (r: Option<Image>)
    requires Lawful(lib)
    ensures r.Some? ==> SameSize(r.value, original) && r.value.mode == original.mode
  {
    var afterContrast := if contrast != 1.0 then lib.contrast(original, contrast) else Some(original);
    match afterContrast
    case None => None
    case Some(c) => if saturation != 1.0 then lib.color(c, saturation) else Some(c)
  }

  /**
   * The size guard, the downscale, `quantize_colors` and the upscale.
   * Division by zero is the only way to a `ZeroDivision` failure, and a
   * result is RGB of the input's size.
   */
  function Reduce(lib: Library, img: Image, pixelSize: int, numColors: int): (r: Outcome)
    requires Lawful(lib)
    ensures r == Failed(ZeroDivision) <==> pixelSize == 0
    ensures r.Done? ==> SameSize(r.image, img) && r.image.mode == RGB
  {
    if pixelSize == 0 then Failed(ZeroDivision)
    else
      var newWidth, newHeight := FloorDiv(img.width, pixelSize), FloorDiv(img.height, pixelSize);
      if newWidth == 0 || newHeight == 0 then Failed(EmptyReduction)
      else match lib.resize(img, newWidth, newHeight)
        case None => Failed(LibraryError)
        case Some(small) =>
          match QuantizeColors(lib, small, numColors)
          case None => Failed(LibraryError)
          case Some(quantized) =>
            match lib.resize(quantized, img.width, img.height)
            case None => Failed(LibraryError)
            case Some(up) => Done(up)
  }

  /**
   * What `apply_pixelation` computes from the loaded image and its
   * arguments: `NoImage` exactly when nothing is loaded, and otherwise an
   * image of the original's size or the stage that failed.
   */
  function Pixelate(lib: Library, original: Option<Image>, pixelSize: int, numColors: int,
                    contrast: real, saturation: real): (r: Outcome)
    requires Lawful(lib)
    ensures r == Failed(NoImage) <==> original.None?
    ensures r.Done? ==> original.Some? && SameSize(r.image, original.value)
  {
    match original
    case None => Failed(NoImage)
    case Some(o) =>
      match Working(lib, o, contrast, saturation)
      case None => Failed(LibraryError)
      case Some(img) => Reduce(lib, img, pixelSize, numColors)
  }

  class ImageProcessor {
    var original: Option<Image>
    var processed: Option<Image>

    /** The loaded image is always RGB. */
    ghost predicate Valid()
      reads this
    {
      original.Some? ==> original.value.mode == RGB
    }

    constructor ()
      ensures Valid()
      ensures original == None && processed == None
    {
      original := None;
      processed := None;
    }

    /**
     * `load_image`; `decoded` is what `Image.open` returned, None when it
     * raised. A successful load keeps the previous processed image.
     */
    method LoadImage(decoded: Option<Image>) returns (ok: bool)
      requires Valid()
      modifies this
      ensures Valid()
      ensures ok == decoded.Some?
      ensures original == (if ok then Some(Normalize(decoded.value)) else old(original))
      ensures processed == old(processed)
    {
      if decoded.None? {
        return false;
      }
      var image := decoded.value;
      if image.mode != RGB {
        image := ConvertRGB(image);
      }
      original := Some(image);
      return true;
    }

    /**
     * `apply_pixelation`. On success the processed image is replaced by the
     * pipeline's result; on every failure nothing changes.
     */
    method ApplyPixelation(lib: Library, pixelSize: int, numColors: int, contrast: real := 1.0,
                           saturation: real := 1.0) returns (ok: bool)
      requires Valid() && Lawful(lib)
      modifies this
      ensures Valid() && original == old(original)
      ensures var out := Pixelate(lib, original, pixelSize, numColors, contrast, saturation);
        ok == out.Done? && processed == (if ok then Some(out.image) else old(processed))
      ensures ok ==> original.Some? && SameSize(processed.value, original.value)
                     && processed.value.mode == RGB && Opaque(processed.value)
                     && |Colors(processed.value)| <= numColors
    {
      if original.None? {
        return false;
      }
      ghost var out := Pixelate(lib, original, pixelSize, numColors, contrast, saturation);
      PixelateResult(lib, original, pixelSize, numColors, contrast, saturation);
      var img := original.value;
      if contrast != 1.0 {
        var enhanced := lib.contrast(img, contrast);
        if enhanced.None? {
          return false;
        }
        img := enhanced.value;
      }
      if saturation != 1.0 {
        var enhanced := lib.color(img, saturation);
        if enhanced.None? {
          return false;
        }
        img := enhanced.value;
      }
      ghost var reduced := Reduce(lib, img, pixelSize, numColors);
      assert reduced == out;
      var width, height := img.width, img.height;
      if pixelSize == 0 {
        return false;
      }
      var newWidth, newHeight := FloorDiv(width, pixelSize), FloorDiv(height, pixelSize);
      if newWidth == 0 || newHeight == 0 {
        return false;
      }
      var small := lib.resize(img, newWidth, newHeight);
      if small.None? {
        return false;
      }
      var quantized := QuantizeColors(lib, small.value, numColors);
      if quantized.None? {
        return false;
      }
      var up := lib.resize(quantized.value, width, height);
      if up.None? {
        return false;
      }
      processed := up;
      return true;
    }

    /** `save_image`; `encoder` stands for the codec's `save`, true when it wrote the file. */
    method SaveImage(encoder: (Image, string, SaveOptions) -> bool, path: string,
                     quality: int := DefaultQuality) returns (ok: bool)
      ensures ok == (processed.Some? && encoder(processed.value, path, SaveOptionsFor(path, quality)))
    {
      if processed.None? {
        return false;
      }
      ok := encoder(processed.value, path, SaveOptionsFor(path, quality));
    }

    method GetProcessedImage() returns (image: Option<Image>)
      ensures image == processed
    {
      image := processed;
    }

    method GetOriginalImage() returns (image: Option<Image>)
      ensures image == original
    {
      image := original;
    }
  }

  // ----- properties of the pipeline -----

  /**
   * A successful `apply_pixelation` on a loaded (hence RGB) image gives a
   * fully opaque RGB image of the original's size with at most `numColors`
   * colours.
   */
  lemma PixelateResult(lib: Library, original: Option<Image>, pixelSize: int, numColors: int,
                       contrast: real, saturation: real)
    requires Lawful(lib)
    requires original.Some? ==> original.value.mode == RGB
    ensures var out := Pixelate(lib, original, pixelSize, numColors, contrast, saturation);
      out.Done? ==>
        original.Some? && SameSize(out.image, original.value) && out.image.mode == RGB
        && Opaque(out.image) && |Colors(out.image)| <= numColors
  {
    var out := Pixelate(lib, original, pixelSize, numColors, contrast, saturation);
    if out.Done? {
      var img := Working(lib, original.value, contrast, saturation).value;
      var newWidth, newHeight := FloorDiv(img.width, pixelSize), FloorDiv(img.height, pixelSize);
      var small := lib.resize(img, newWidth, newHeight).value;
      var quantized := QuantizeColors(lib, small, numColors).value;
      var up := lib.resize(quantized, img.width, img.height).value;
      assert out.image == up;
      DrawnFromSubsets(up, quantized);
      SubsetNoLarger(Colors(up), Colors(quantized));
      DrawnFromOpaque(up, quantized);
    }
  }

  /**
   * `apply_pixelation` fails without a loaded image and for a non-positive
   * `pixel_size`; for a positive one it fails with `EmptyReduction` exactly
   * when the block size exceeds a side of the enhanced image.
   */
  lemma PixelateGuards(lib: Library, original: Option<Image>, pixelSize: int, numColors: int,
                       contrast: real, saturation: real)
    requires Lawful(lib)
    ensures var out := Pixelate(lib, original, pixelSize, numColors, contrast, saturation);
      (original.None? ==> out == Failed(NoImage))
      && (original.Some? && Working(lib, original.value, contrast, saturation).Some? ==>
            (pixelSize == 0 ==> out == Failed(ZeroDivision))
            && (pixelSize >= 1 ==> (out == Failed(EmptyReduction)
                                    <==> original.value.width < pixelSize || original.value.height < pixelSize)))
      && (pixelSize <= 0 ==> out.Failed?)
      && (out.Done? ==> original.Some? && 1 <= pixelSize
                        && pixelSize <= original.value.width && pixelSize <= original.value.height)
  {
    if original.Some? {
      var w := Working(lib, original.value, contrast, saturation);
      if w.Some? {
        var img := w.value;
        if pixelSize >= 1 {
          FloorDivZero(img.width, pixelSize);
          FloorDivZero(img.height, pixelSize);
        } else if pixelSize < 0 {
          FloorDivNegative(img.width, pixelSize);
          FloorDivNegative(img.height, pixelSize);
        }
      }
    }
  }

  /** The reduction stages never consult the enhancers. */
  lemma ReduceIgnoresEnhancers(lib: Library, other: Library, img: Image, pixelSize: int, numColors: int)
    requires Lawful(lib) && Lawful(other)
    requires other.resize == lib.resize && other.quantize == lib.quantize
    ensures Reduce(lib, img, pixelSize, numColors) == Reduce(other, img, pixelSize, numColors)
  {
    forall im: Image | true
      ensures QuantizeColors(lib, im, numColors) == QuantizeColors(other, im, numColors)
    {
    }
  }

  /**
   * A contrast of exactly 1.0 skips the contrast stage: whatever the
   * saturation, the result does not depend on the contrast enhancer.
   */
  lemma UnitContrastSkipsEnhancer(lib: Library, enhancer: (Image, real) -> Option<Image>,
                                  original: Option<Image>, pixelSize: int, numColors: int,
                                  saturation: real)
    requires Lawful(lib) && EnhanceLawful(enhancer)
    ensures var other := lib.(contrast := enhancer);
      Lawful(other)
      && Pixelate(lib, original, pixelSize, numColors, 1.0, saturation)
         == Pixelate(other, original, pixelSize, numColors, 1.0, saturation)
  {
    var other := lib.(contrast := enhancer);
    assert Lawful(other);
    if original.Some? {
      var w := Working(lib, original.value, 1.0, saturation);
      assert w == Working(other, original.value, 1.0, saturation);
      if w.Some? {
        ReduceIgnoresEnhancers(lib, other, w.value, pixelSize, numColors);
      }
    }
  }

  /**
   * A saturation of exactly 1.0 skips the saturation stage: whatever the
   * contrast, the result does not depend on the colour enhancer.
   */
  lemma UnitSaturationSkipsEnhancer(lib: Library, enhancer: (Image, real) -> Option<Image>,
                                    original: Option<Image>, pixelSize: int, numColors: int,
                                    contrast: real)
    requires Lawful(lib) && EnhanceLawful(enhancer)
    ensures var other := lib.(color := enhancer);
      Lawful(other)
      && Pixelate(lib, original, pixelSize, numColors, contrast, 1.0)
         == Pixelate(other, original, pixelSize, numColors, contrast, 1.0)
  {
    var other := lib.(color := enhancer);
    assert Lawful(other);
    if original.Some? {
      var w := Working(lib, original.value, contrast, 1.0);
      assert w == Working(other, original.value, contrast, 1.0);
      if w.Some? {
        ReduceIgnoresEnhancers(lib, other, w.value, pixelSize, numColors);
      }
    }
  }

  /** A contrast other than 1.0 runs its enhancer: one that raises makes every run fail. */
  lemma OtherContrastRunsEnhancer(lib: Library, original: Image, pixelSize: int, numColors: int,
                                  contrast: real, saturation: real)
    requires Lawful(lib) && contrast != 1.0
    ensures var failing := lib.(contrast := Failing);
      Lawful(failing)
      && Pixelate(failing, Some(original), pixelSize, numColors, contrast, saturation) == Failed(LibraryError)
  {
    var failing := lib.(contrast := Failing);
    assert EnhanceLawful(Failing);
    assert Lawful(failing);
  }

  /** A saturation other than 1.0 runs its enhancer: one that raises makes every run fail. */
  lemma OtherSaturationRunsEnhancer(lib: Library, original: Image, pixelSize: int, numColors: int,
                                    contrast: real, saturation: real)
    requires Lawful(lib) && saturation != 1.0
    ensures var failing := lib.(color := Failing);
      Lawful(failing)
      && Pixelate(failing, Some(original), pixelSize, numColors, contrast, saturation) == Failed(LibraryError)
  {
    var failing := lib.(color := Failing);
    assert EnhanceLawful(Failing);
    assert Lawful(failing);
  }

  /** Loading an image that is already loaded changes nothing. */
  lemma NormalizeIdempotent(im: Image)
    ensures Normalize(Normalize(im)) == Normalize(im)
  {
  }
}
