/**
 * The imaging library as the processors see it: image values, the exact
 * helpers (convert, new, paste, putalpha, split) and the resampling,
 * quantizing and enhancing calls, which stay abstract and are known only
 * through the contracts collected in `Lawful`.
 */
module Pil {

  datatype Option<+T> = None | Some(value: T)

  /** One 8-bit channel sample. */
  type Byte = x: int | 0 <= x < 256

  /** Image modes; `OtherMode` stands for every mode the code never names (1, I, F, CMYK, ...). */
  datatype Mode = RGB | RGBA | LA | L | P | OtherMode

  datatype Rgb = Rgb(r: Byte, g: Byte, b: Byte)

  const Black := Rgb(0, 0, 0)
  const White := Rgb(255, 255, 255)

  /**
   * A pixel in its resolved form: the colour it shows and its opacity.
   * The alpha sample carries information only in modes with an alpha band.
   */
  datatype Pixel = Pixel(color: Rgb, alpha: Byte)

  /**
   * An image: mode, size, row-major pixels, whether `info` holds a
   * 'transparency' key, and the `format` attribute (None for images that
   * were not read from a file).
   */
  datatype Raster = Raster(mode: Mode, width: nat, height: nat, pixels: seq<Pixel>,
                           transparencyInfo: bool, format: Option<string>)

  /**
   * Whether an image stores per-pixel alpha: RGBA and LA always, P when its
   * `info` has a 'transparency' entry.
   */
  predicate StoresAlpha(mode: Mode, transparencyInfo: bool) {
    mode == RGBA || mode == LA || (mode == P && transparencyInfo)
  }

  /** A well-formed image: one pixel per position, and full opacity where no alpha is stored. */
  type Image = im: Raster | |im.pixels| == im.width * im.height
    && (!StoresAlpha(im.mode, im.transparencyInfo) ==>
          forall i :: 0 <= i < |im.pixels| ==> im.pixels[i].alpha == 255)
    witness Raster(RGB, 0, 0, [], false, None)

  predicate SameSize(a: Image, b: Image) {
    a.width == b.width && a.height == b.height
  }

  ghost predicate Opaque(im: Image) {
    forall i :: 0 <= i < |im.pixels| ==> im.pixels[i].alpha == 255
  }

  /** The distinct colours of an image, alpha not counted. */
  ghost function Colors(im: Image): set<Rgb> {
    set i | 0 <= i < |im.pixels| :: im.pixels[i].color
  }

  /** The distinct alpha values of an image. */
  ghost function Alphas(im: Image): set<Byte> {
    set i | 0 <= i < |im.pixels| :: im.pixels[i].alpha
  }

  /** Every pixel of `out` is a copy of some pixel of `src`. */
  ghost predicate DrawnFrom(out: Image, src: Image) {
    forall i :: 0 <= i < |out.pixels| ==> out.pixels[i] in src.pixels
  }

  /** `Image.new(mode, (width, height), fill)`. */
  function NewImage(mode: Mode, width: nat, height: nat, fill: Pixel): (im: Image)
    requires StoresAlpha(mode, false) || fill.alpha == 255
    ensures im.mode == mode && im.width == width && im.height == height
    ensures forall i :: 0 <= i < |im.pixels| ==> im.pixels[i] == fill
  {
    Raster(mode, width, height, seq(width * height, _ => fill), false, None)
  }

  /** `im.convert('RGB')`: the alpha band is dropped, the colours stay. */
  function ConvertRGB(im: Image): (r: Image)
    ensures r.mode == RGB && SameSize(r, im) && Opaque(r)
    ensures forall i :: 0 <= i < |r.pixels| ==> r.pixels[i].color == im.pixels[i].color
  {
    Raster(RGB, im.width, im.height,
           seq(|im.pixels|, i requires 0 <= i < |im.pixels| => Pixel(im.pixels[i].color, 255)),
           false, None)
  }

  /** `im.convert('RGBA')`: the resolved pixels become the RGBA samples. */
  function ConvertRGBA(im: Image): (r: Image)
    ensures r.mode == RGBA && SameSize(r, im) && r.pixels == im.pixels
  {
    Raster(RGBA, im.width, im.height, im.pixels, false, None)
  }

  /** `im.split()[3]` of an RGBA image: its alpha plane. */
  function AlphaPlane(im: Image): (plane: seq<Byte>)
    ensures |plane| == |im.pixels|
    ensures forall i :: 0 <= i < |plane| ==> plane[i] == im.pixels[i].alpha
  {
    seq(|im.pixels|, i requires 0 <= i < |im.pixels| => im.pixels[i].alpha)
  }

  /** `im.putalpha(plane)`: the image becomes RGBA with exactly these alpha values. */
  function PutAlpha(im: Image, plane: seq<Byte>): (r: Image)
    requires |plane| == |im.pixels|
    ensures r.mode == RGBA && SameSize(r, im)
    ensures AlphaPlane(r) == plane
    ensures forall i :: 0 <= i < |r.pixels| ==> r.pixels[i].color == im.pixels[i].color
  {
    Raster(RGBA, im.width, im.height,
           seq(|im.pixels|, i requires 0 <= i < |im.pixels| => Pixel(im.pixels[i].color, plane[i])),
           im.transparencyInfo, im.format)
  }

  /**
   * `dst.paste(src)` of a same-size image without a mask: every pixel of
   * `dst` is overwritten by `src` converted to `dst`'s mode.
   */
  function Paste(dst: Image, src: Image): (r: Image)
    requires SameSize(dst, src)
    ensures r.mode == dst.mode && SameSize(r, dst)
    ensures forall i :: 0 <= i < |r.pixels| ==> r.pixels[i].color == src.pixels[i].color
  {
    Raster(dst.mode, dst.width, dst.height,
           seq(|dst.pixels|, i requires 0 <= i < |dst.pixels| =>
             Pixel(src.pixels[i].color,
                   if dst.mode == RGBA then src.pixels[i].alpha else 255)),
           dst.transparencyInfo, dst.format)
  }

  /**
   * `dst.paste(src, mask=src.split()[3])`: each pixel of `dst` is blended
   * with the one of `src` by the library's per-pixel rule, weighted by
   * `src`'s alpha.
   */
  function PasteMasked(blend: (Rgb, Rgb, Byte) -> Rgb, dst: Image, src: Image): (r: Image)
    requires SameSize(dst, src)
    ensures r.mode == dst.mode && SameSize(r, dst)
    ensures forall i :: 0 <= i < |r.pixels| ==>
      r.pixels[i] == Pixel(blend(dst.pixels[i].color, src.pixels[i].color, src.pixels[i].alpha),
                           dst.pixels[i].alpha)
  {
    var px := seq(|dst.pixels|, i requires 0 <= i < |dst.pixels| =>
      Pixel(blend(dst.pixels[i].color, src.pixels[i].color, src.pixels[i].alpha), dst.pixels[i].alpha));
    Raster(dst.mode, dst.width, dst.height, px, dst.transparencyInfo, dst.format)
  }

  /**
   * The library calls whose arithmetic is not modelled. Each returns None
   * when the call raises.
   *   resize(im, w, h)    im.resize((w, h), Image.Resampling.NEAREST)
   *   thumbnail(im, w, h) the image im.thumbnail((w, h), NEAREST) leaves behind
   *   quantize(im, k)     im.quantize(colors=k, method=Image.Quantize.MEDIANCUT)
   *   contrast(im, f)     ImageEnhance.Contrast(im).enhance(f)
   *   color(im, f)        ImageEnhance.Color(im).enhance(f)
   *   blend(d, s, a)      one pixel of a paste of s onto d under mask value a
   */
  datatype Library = Library(
    resize: (Image, int, int) -> Option<Image>,
    thumbnail: (Image, int, int) -> Option<Image>,
    quantize: (Image, int) -> Option<Image>,
    contrast: (Image, real) -> Option<Image>,
    color: (Image, real) -> Option<Image>,
    blend: (Rgb, Rgb, Byte) -> Rgb)

  /** Nearest-neighbour resampling: the requested size, the same mode, only copied pixels. */
  ghost predicate Resampled(out: Image, src: Image, w: int, h: int) {
    out.width == w && out.height == h && out.mode == src.mode && DrawnFrom(out, src)
  }

  ghost predicate ResizeLawful(resize: (Image, int, int) -> Option<Image>) {
    forall im: Image, w: int, h: int ::
      resize(im, w, h).Some? ==> Resampled(resize(im, w, h).value, im, w, h)
  }

  /** A thumbnail never grows the image, keeps the mode and only copies pixels. */
  ghost predicate ThumbnailLawful(thumbnail: (Image, int, int) -> Option<Image>) {
    forall im: Image, w: int, h: int ::
      thumbnail(im, w, h).Some? ==>
        var t := thumbnail(im, w, h).value;
        t.width <= im.width && t.height <= im.height && t.mode == im.mode && DrawnFrom(t, im)
  }

  /** Quantizing yields a palette image of the same size with at most k colours. */
  ghost predicate QuantizeLawful(quantize: (Image, int) -> Option<Image>) {
    forall im: Image, k: int ::
      quantize(im, k).Some? ==>
        var q := quantize(im, k).value;
        q.mode == P && SameSize(q, im) && |Colors(q)| <= k
  }

  /** An enhancer keeps the size and the mode. */
  ghost predicate EnhanceLawful(enhance: (Image, real) -> Option<Image>) {
    forall im: Image, f: real ::
      enhance(im, f).Some? ==> SameSize(enhance(im, f).value, im) && enhance(im, f).value.mode == im.mode
  }

  /** Under mask value 255 the source pixel is copied; under 0 the destination stays. */
  ghost predicate BlendLawful(blend: (Rgb, Rgb, Byte) -> Rgb) {
    forall d: Rgb, s: Rgb :: blend(d, s, 255) == s && blend(d, s, 0) == d
  }

  ghost predicate Lawful(lib: Library) {
    ResizeLawful(lib.resize) && ThumbnailLawful(lib.thumbnail) && QuantizeLawful(lib.quantize)
    && EnhanceLawful(lib.contrast) && EnhanceLawful(lib.color) && BlendLawful(lib.blend)
  }

  /** A subset is no larger than its superset. */
  lemma SubsetNoLarger<T>(a: set<T>, b: set<T>)
    requires a <= b
    ensures |a| <= |b|
  {
    assert b == a + (b - a);
    assert a !! (b - a);
  }

  /** Copying pixels never introduces a colour or an alpha value. */
  lemma DrawnFromSubsets(out: Image, src: Image)
    requires DrawnFrom(out, src)
    ensures Colors(out) <= Colors(src) && Alphas(out) <= Alphas(src)
  {
    forall c | c in Colors(out) ensures c in Colors(src) {
      var i :| 0 <= i < |out.pixels| && out.pixels[i].color == c;
      var j :| 0 <= j < |src.pixels| && src.pixels[j] == out.pixels[i];
      assert src.pixels[j].color == c;
    }
    forall a | a in Alphas(out) ensures a in Alphas(src) {
      var i :| 0 <= i < |out.pixels| && out.pixels[i].alpha == a;
      var j :| 0 <= j < |src.pixels| && src.pixels[j] == out.pixels[i];
      assert src.pixels[j].alpha == a;
    }
  }

  /** Copying pixels of a fully opaque image gives a fully opaque image. */
  lemma DrawnFromOpaque(out: Image, src: Image)
    requires DrawnFrom(out, src) && Opaque(src)
    ensures Opaque(out)
  {
    forall i | 0 <= i < |out.pixels| ensures out.pixels[i].alpha == 255 {
      var j :| 0 <= j < |src.pixels| && src.pixels[j] == out.pixels[i];
    }
  }

  /** Two images with the same alpha plane have the same alpha values. */
  lemma SameAlphasPointwise(a: Image, b: Image)
    requires AlphaPlane(a) == AlphaPlane(b)
    ensures Alphas(a) == Alphas(b)
  {
    forall x | x in Alphas(a) ensures x in Alphas(b) {
      var i :| 0 <= i < |a.pixels| && a.pixels[i].alpha == x;
      assert AlphaPlane(b)[i] == x;
    }
    forall x | x in Alphas(b) ensures x in Alphas(a) {
      var i :| 0 <= i < |b.pixels| && b.pixels[i].alpha == x;
      assert AlphaPlane(a)[i] == x;
    }
  }

  /** Two images whose pixels agree colour by colour have the same colour set. */
  lemma SameColorsPointwise(a: Image, b: Image)
    requires |a.pixels| == |b.pixels|
    requires forall i :: 0 <= i < |a.pixels| ==> a.pixels[i].color == b.pixels[i].color
    ensures Colors(a) == Colors(b)
  {
    forall c | c in Colors(a) ensures c in Colors(b) {
      var i :| 0 <= i < |a.pixels| && a.pixels[i].color == c;
      assert b.pixels[i].color == c;
    }
    forall c | c in Colors(b) ensures c in Colors(a) {
      var i :| 0 <= i < |b.pixels| && b.pixels[i].color == c;
      assert a.pixels[i].color == c;
    }
  }

  /** A PIL image object, for the one operation that mutates an image in place. */
  class Picture {
    var image: Image

    constructor (im: Image)
      ensures image == im
    {
      image := im;
    }
  }
}
