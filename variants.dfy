/**
 * How the two processors relate: on an image without transparency the
 * transparency-aware processor loads and pixelates exactly as the RGB-only
 * one does.
 */
module Variants {
  import opened Pil
  import opened Pixelation
  import UtilityProcessor
  import BasicProcessor

  /** Both variants load an image judged not transparent as the same RGB image. */
  lemma LoadAgrees(im: Image)
    requires !UtilityProcessor.HasTransparency(im)
    ensures UtilityProcessor.Normalize(im) == BasicProcessor.Normalize(im)
  {
  }

  /** On an RGB image the alpha-aware stages reduce to the RGB-only ones. */
  lemma ReduceAgrees(lib: Library, img: Image, pixelSize: int, numColors: int)
    requires Lawful(lib) && img.mode == RGB
    ensures UtilityProcessor.Reduce(lib, img, pixelSize, numColors)
            == BasicProcessor.Reduce(lib, img, pixelSize, numColors)
  {
    if pixelSize != 0 {
      var newWidth, newHeight := FloorDiv(img.width, pixelSize), FloorDiv(img.height, pixelSize);
      if newWidth != 0 && newHeight != 0 && lib.resize(img, newWidth, newHeight).Some? {
        var small := lib.resize(img, newWidth, newHeight).value;
        assert small.mode == RGB;
        assert UtilityProcessor.QuantizeColorsWithAlpha(lib, small, numColors)
               == QuantizeColors(lib, small, numColors);
      }
    }
  }

  /**
   * For a non-transparent image, whatever the background colour and whether
   * or not transparency is to be preserved, both variants produce the same
   * outcome.
   */
  lemma PixelateAgrees(lib: Library, im: Image, background: Rgb, pixelSize: int, numColors: int,
                       contrast: real, saturation: real, preserveTransparency: bool)
    requires Lawful(lib) && !UtilityProcessor.HasTransparency(im)
    ensures var loaded := UtilityProcessor.Normalize(im);
      UtilityProcessor.Pixelate(lib, Some(loaded), false, background, pixelSize, numColors,
                                contrast, saturation, preserveTransparency)
      == BasicProcessor.Pixelate(lib, Some(BasicProcessor.Normalize(im)), pixelSize, numColors,
                                 contrast, saturation)
  {
    var loaded := UtilityProcessor.Normalize(im);
    var w := UtilityProcessor.Working(lib, loaded, false, background, contrast, saturation, preserveTransparency);
    assert w == BasicProcessor.Working(lib, loaded, contrast, saturation);
    if w.Some? {
      ReduceAgrees(lib, w.value, pixelSize, numColors);
    }
  }
}
