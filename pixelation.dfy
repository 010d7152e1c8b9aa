/**
 * What the two `ImageProcessor` variants share: Python's integer division,
 * the RGB quantizer `quantize_colors` and `resize_image`.
 */
module Pixelation {
  import opened Pil

  /**
   * Why `apply_pixelation` returned False: no image loaded, a library call
   * raised, `pixel_size` was zero (ZeroDivisionError), or the reduced size
   * had a zero side.
   */
  datatype Failure = NoImage | LibraryError | ZeroDivision | EmptyReduction

  /** What one run of `apply_pixelation` produces. */
  datatype Outcome = Done(image: Image) | Failed(reason: Failure)

  /** Python's `a // b`: the quotient rounded towards negative infinity. */
  function FloorDiv(a: int, b: int): (q: int)
    requires b != 0
    ensures b > 0 ==> q * b <= a < q * b + b
    ensures b < 0 ==> q * b >= a > q * b + b
  {
    if b > 0 then a / b else (-a) / (-b)
  }

  /** For a positive block size, `n // size` is zero exactly when `n < size`. */
  lemma {:induction false} FloorDivZero(n: nat, size: int)
    requires size >= 1
    ensures FloorDiv(n, size) == 0 <==> n < size
    ensures FloorDiv(n, size) >= 0
  {
    var q := FloorDiv(n, size);
    if q >= 1 {
      assert q * size >= size;
    }
  }

  /** For a negative block size, `n // size` is negative unless `n` is zero. */
  lemma {:induction false} FloorDivNegative(n: nat, size: int)
    requires size < 0
    ensures n == 0 ==> FloorDiv(n, size) == 0
    ensures n > 0 ==> FloorDiv(n, size) < 0
  {
    var q := FloorDiv(n, size);
  }

  /** An enhancer that always raises. */
  function Failing(im: Image, factor: real): Option<Image> {
    None
  }

  /**
   * `quantize_colors`: median-cut quantization to at most `numColors`
   * colours, converted back to RGB. None when the library call raises.
   */
  function QuantizeColors(lib: Library, image: Image, numColors: int): (r: Option<Image>)
    requires Lawful(lib)
    ensures r.Some? <==> lib.quantize(image, numColors).Some?
    ensures r.Some? ==> r.value.mode == RGB && SameSize(r.value, image) && Opaque(r.value)
    ensures r.Some? ==> |Colors(r.value)| <= numColors
  {
    match lib.quantize(image, numColors)
    case None => None
    case Some(q) =>
      var rgb := ConvertRGB(q);
      SameColorsPointwise(rgb, q);
      Some(rgb)
  }

  /**
   * `resize_image`. With `maintainAspect` the picture itself is shrunk in
   * place by `thumbnail` and that same object is returned; otherwise a new
   * picture of exactly the target size is returned and the argument is left
   * alone. None stands for the exception the library call raises.
   */
  method ResizeImage(lib: Library, picture: Picture, targetWidth: int, targetHeight: int,
                     maintainAspect: bool := true) returns (r: Option<Picture>)
    requires Lawful(lib)
    modifies picture
    ensures maintainAspect ==>
      match lib.thumbnail(old(picture.image), targetWidth, targetHeight)
      case Some(t) => r == Some(picture) && picture.image == t
                      && t.width <= old(picture.image).width && t.height <= old(picture.image).height
                      && t.mode == old(picture.image).mode
      case None => r == None && picture.image == old(picture.image)
    ensures !maintainAspect ==>
      picture.image == old(picture.image)
      && match lib.resize(picture.image, targetWidth, targetHeight)
         case Some(v) => r.Some? && fresh(r.value) && r.value.image == v
                         && v.width == targetWidth && v.height == targetHeight
         case None => r == None
  {
    if maintainAspect {
      var t := lib.thumbnail(picture.image, targetWidth, targetHeight);
      if t.None? {
        return None;
      }
      picture.image := t.value;
      return Some(picture);
    } else {
      var v := lib.resize(picture.image, targetWidth, targetHeight);
      if v.None? {
        return None;
      }
      var resized := new Picture(v.value);
      return Some(resized);
    }
  }
}
