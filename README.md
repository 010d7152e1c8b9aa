# img2pix image processor, modelled in Dafny

img2pix turns pictures into pixel art. The application is a small desktop tool, and all of its image
logic lives in one class, `ImageProcessor`. The class comes in two variants:

- **Transparency-aware** (utility/image_processor.py). It loads an image and normalises its mode to
  RGBA or RGB. It can flatten a transparent image onto a background colour. It enhances contrast and
  saturation on the colour channels only. It quantizes colours and then reattaches the alpha plane.
  It also chooses an output format from the file extension.
- **RGB-only** (image_processor.py). It converts every image to RGB and runs the same
  enhance, downscale, quantize, upscale pipeline without any alpha handling.

This project models both classes and proves properties of the model. The files are:

- `pil.dfy` (module `Pil`): the image value and the library calls the classes rely on.
  - An image is a `Raster`: a mode, a width, a height, a row-major sequence of pixels, the
    'transparency' info flag and the file format.
  - The subset type `Image` ties the number of pixels to the size. It also requires a mode without an
    alpha band to be fully opaque.
  - `convert`, `Image.new`, `paste`, `putalpha` and `split()[3]` are concrete functions.
  - Resizing, thumbnailing, median-cut quantization, the two enhancers and the masked paste's
    per-pixel blend are fields of a `Library` value. `Lawful` gives them only the properties the code
    relies on:
    - a resize has the requested size and mode, and every pixel comes from the input;
    - a thumbnail never grows the image and keeps its mode;
    - a quantization is palette mode with at most `colors` distinct colours;
    - an enhancer keeps size and mode;
    - a mask value of 255 takes the source pixel and 0 keeps the destination pixel.
- `formats.dfy` (module `Formats`): `file_path.lower().split('.')[-1]` and the save-format dispatch
  that both variants share.
- `pixelation.dfy` (module `Pixelation`): Python's floor division `//`, the RGB `quantize_colors`,
  `resize_image` (in place on a `Picture` object for `thumbnail`) and the outcome type of
  `apply_pixelation`.
- `utility_image_processor.dfy` (module `UtilityProcessor`): the transparency-aware class.
- `image_processor.dfy` (module `BasicProcessor`): the RGB-only class.
- `variants.dfy` (module `Variants`): on an image without transparency, the two variants load and
  pixelate identically.

Each class method is proved against a specification function. `apply_pixelation` is specified by
`Pixelate`, and its `ensures` says three things:
- it succeeds exactly when `Pixelate` yields `Done`;
- on success `processed_image` becomes that image;
- on every failure, including no image loaded, no state changes.

The lemmas beside `Pixelate` state what a successful run delivers and under which conditions it fails.

Where the code and its narrative description differ, the model follows the code:
- Compositing onto the background happens before enhancement.
- The zero-size guard is checked after enhancement.
- Transparency is decided by mode and the 'transparency' key alone, never by pixel values, so a fully
  opaque RGBA image counts as transparent.
- `load_image` does not clear a previous `processed_image`.
- On an RGBA image the enhancers receive the colours composited over black, and the alpha plane is
  then put back.

## Model

| member | source | states |
|---|---|---|
| UtilityProcessor.HasTransparency | utility/image_processor.py:96-99 | transparency is RGBA or LA mode, or P mode with the 'transparency' key; an image judged not transparent is fully opaque |
| UtilityProcessor.Normalize | utility/image_processor.py:37-44 | a loaded image is RGBA if transparent and RGB otherwise, with the same size and pixels; the file format survives only when no conversion was needed |
| UtilityProcessor.CompositeWithBackground | utility/image_processor.py:101-121 | the result is an opaque RGB image of the same size; fully opaque pixels keep their colour and fully transparent ones show the background; a non-RGBA input is copied colour for colour |
| UtilityProcessor.RgbPart | utility/image_processor.py:186-187 | the image handed to an enhancer for an RGBA image is RGB of the same size |
| UtilityProcessor.EnhanceChannels | utility/image_processor.py:183-217 | an enhancement stage keeps size and mode and fails exactly when the enhancer raises; a non-RGBA image is handed to the enhancer directly; on RGBA the enhancer sees only the colour channels, its colours are the result's colours and the alpha plane comes back unchanged |
| UtilityProcessor.QuantizeColorsWithAlpha | utility/image_processor.py:123-152 | same size and at most `num_colors` colours; RGBA stays RGBA with its alpha plane unchanged, any other mode comes back opaque RGB; fails exactly when quantize raises |
| UtilityProcessor.InfoFor | utility/image_processor.py:312-321 | an empty dictionary exactly when no image is loaded |
| UtilityProcessor.ImageProcessor.constructor | utility/image_processor.py:14-18 | no images, no transparency, a white background |
| UtilityProcessor.ImageProcessor.LoadImage | utility/image_processor.py:20-49 | succeeds exactly when the file decodes; then stores the normalised image and its transparency; a failing `Image.open` changes nothing; the processed image and background are never touched |
| UtilityProcessor.ImageProcessor.ApplyPixelation | utility/image_processor.py:154-242 | `contrast` and `saturation` default to 1.0 and `preserve_transparency` to true; succeeds exactly when `Pixelate` yields `Done`, and then stores that image; every failure leaves `processed_image` unchanged; the original, the transparency flag and the background are never modified; a result has the original's size and at most `num_colors` colours |
| UtilityProcessor.ImageProcessor.SaveImage | utility/image_processor.py:244-276 | `quality` defaults to 95; fails without a processed image; otherwise it is the codec's verdict on the format and options chosen from the path |
| UtilityProcessor.ImageProcessor.GetProcessedImage | utility/image_processor.py:278-280 | returns the processed image |
| UtilityProcessor.ImageProcessor.GetOriginalImage | utility/image_processor.py:282-284 | returns the loaded image |
| UtilityProcessor.ImageProcessor.SetBackgroundColor | utility/image_processor.py:286-292 | sets the background colour and nothing else |
| UtilityProcessor.ImageProcessor.GetBackgroundColor | utility/image_processor.py:294-296 | returns the background colour |
| UtilityProcessor.ImageProcessor.HasImageTransparency | utility/image_processor.py:298-304 | returns the stored transparency flag |
| UtilityProcessor.ImageProcessor.GetImageInfo | utility/image_processor.py:306-321 | empty before a load; otherwise the loaded image's width, height, mode and format and the transparency flag, the mode being RGBA exactly when transparent |
| UtilityProcessor.BackgroundColorRoundTrip | utility/image_processor.py:286-296 | `get_background_color` after `set_background_color(c)` returns `c` |
| UtilityProcessor.ReduceGuards | utility/image_processor.py:220-227 | `pixel_size` 0 raises ZeroDivisionError; for a positive `pixel_size` the zero-size rejection happens exactly when a side is shorter than `pixel_size`; a negative one always fails |
| UtilityProcessor.ReduceResult | utility/image_processor.py:229-236 | a successful reduction has the working image's size and at most `num_colors` colours; RGBA stays RGBA with no new alpha value; anything else comes out opaque RGB |
| UtilityProcessor.ReducedPalette | utility/image_processor.py:230-236 | nearest-neighbour resizing adds no colour and no alpha value, so the upscale keeps the quantizer's bound |
| UtilityProcessor.CompositeStage | utility/image_processor.py:177-180 | keeps the size; flattens to RGB exactly when the image is transparent and not to be preserved, and otherwise passes the image through unchanged |
| UtilityProcessor.Working | utility/image_processor.py:175-217 | after compositing and enhancement the image has the original's size; it is RGB when composited, otherwise it keeps the original's mode and, for RGBA, the alpha plane |
| UtilityProcessor.Reduce | utility/image_processor.py:219-236 | fails with ZeroDivisionError exactly when `pixel_size` is 0; a result has the working image's size and is RGBA exactly for RGBA input, RGB otherwise |
| UtilityProcessor.Pixelate | utility/image_processor.py:170-238 | the outcome of `apply_pixelation`: `NoImage` exactly when nothing is loaded; a result has the original's size |
| UtilityProcessor.PixelateResult | utility/image_processor.py:170-238 | a successful run from a loaded state has the original's size and at most `num_colors` colours; it is RGBA exactly when a transparent image is preserved, with alpha values taken from the original; otherwise it is opaque RGB |
| UtilityProcessor.PixelateGuards | utility/image_processor.py:170-171 | fails without an image, for a non-positive `pixel_size`, and when the block exceeds a side; success implies 1 <= `pixel_size` <= both sides |
| UtilityProcessor.CompositingFlattens | utility/image_processor.py:178-180 | with `preserve_transparency` false a transparent image comes out as opaque RGB |
| UtilityProcessor.CompositeBeforeEnhancement | utility/image_processor.py:178-199 | the contrast enhancer runs on the already composited image |
| UtilityProcessor.BackgroundUnusedWhenPreserving | utility/image_processor.py:178-180 | with `preserve_transparency` true, the application's only call, the background colour does not affect the result |
| UtilityProcessor.UnitContrastSkipsEnhancer | utility/image_processor.py:183 | with contrast 1.0, for any saturation, the result does not depend on the contrast enhancer |
| UtilityProcessor.UnitSaturationSkipsEnhancer | utility/image_processor.py:201 | with saturation 1.0, for any contrast, the result does not depend on the colour enhancer |
| UtilityProcessor.ReduceIgnoresEnhancers | utility/image_processor.py:219-236 | the reduction stages do not consult the enhancers |
| UtilityProcessor.OtherContrastRunsEnhancer | utility/image_processor.py:183-199 | a contrast other than 1.0 runs the contrast enhancer: one that raises makes every run on a loaded image fail |
| UtilityProcessor.OtherSaturationRunsEnhancer | utility/image_processor.py:201-217 | a saturation other than 1.0 runs the colour enhancer: one that raises makes every run on a loaded image fail |
| UtilityProcessor.EnhancerInputOverBlack | utility/image_processor.py:186-187 | for RGBA the enhancer sees the colours composited over black: opaque pixels keep their colour, fully transparent ones are black |
| UtilityProcessor.NormalizeIdempotent | utility/image_processor.py:34-44 | a loaded image is judged as before, and loading it again changes nothing |
| UtilityProcessor.TransparencyIgnoresPixels | utility/image_processor.py:96-99 | two images with the same mode and the same 'transparency' key are judged alike, whatever their pixels |
| UtilityProcessor.OpaqueRgbaCountsAsTransparent | utility/image_processor.py:96-99 | a fully opaque RGBA image is still judged transparent |
| UtilityProcessor.InfoAfterLoad | utility/image_processor.py:306-321 | after a load the info reports the file's size, RGBA exactly for transparent images, and the format only if no conversion took place |
| BasicProcessor.Normalize | image_processor.py:29-33 | a loaded image is opaque RGB of the same size with the same colours; the format survives only when it already was RGB |
| BasicProcessor.Working | image_processor.py:95-101 | the enhancement stages keep size and mode |
| BasicProcessor.Reduce | image_processor.py:103-120 | fails with ZeroDivisionError exactly when `pixel_size` is 0; a result is RGB of the working image's size |
| BasicProcessor.Pixelate | image_processor.py:87-122 | the outcome of `apply_pixelation`: `NoImage` exactly when nothing is loaded; a result has the original's size |
| BasicProcessor.ImageProcessor.constructor | image_processor.py:14-16 | no images |
| BasicProcessor.ImageProcessor.LoadImage | image_processor.py:18-36 | succeeds exactly when the file decodes and then stores the RGB image; a failing `Image.open` changes nothing; the processed image is kept |
| BasicProcessor.ImageProcessor.ApplyPixelation | image_processor.py:73-126 | `contrast` and `saturation` default to 1.0; succeeds exactly when `Pixelate` yields `Done` and then stores that image; every failure leaves the state unchanged; the original is never modified; a result is opaque RGB of the original's size with at most `num_colors` colours |
| BasicProcessor.ImageProcessor.SaveImage | image_processor.py:128-160 | `quality` defaults to 95; fails without a processed image; otherwise it is the codec's verdict on the format chosen from the path |
| BasicProcessor.ImageProcessor.GetProcessedImage | image_processor.py:162-164 | returns the processed image |
| BasicProcessor.ImageProcessor.GetOriginalImage | image_processor.py:166-168 | returns the loaded image |
| BasicProcessor.PixelateResult | image_processor.py:87-122 | a successful run gives opaque RGB of the original's size with at most `num_colors` colours |
| BasicProcessor.PixelateGuards | image_processor.py:87-111 | fails without an image and for a non-positive `pixel_size`; 0 raises ZeroDivisionError; for a positive size the zero-size rejection happens exactly when a side is shorter than `pixel_size` |
| BasicProcessor.ReduceIgnoresEnhancers | image_processor.py:103-120 | the reduction stages do not consult the enhancers |
| BasicProcessor.UnitContrastSkipsEnhancer | image_processor.py:95-97 | with contrast 1.0, for any saturation, the result does not depend on the contrast enhancer |
| BasicProcessor.UnitSaturationSkipsEnhancer | image_processor.py:99-101 | with saturation 1.0, for any contrast, the result does not depend on the colour enhancer |
| BasicProcessor.OtherContrastRunsEnhancer | image_processor.py:95-97 | a contrast other than 1.0 runs the contrast enhancer: one that raises makes every run fail |
| BasicProcessor.OtherSaturationRunsEnhancer | image_processor.py:99-101 | a saturation other than 1.0 runs the colour enhancer: one that raises makes every run fail |
| BasicProcessor.NormalizeIdempotent | image_processor.py:30-32 | loading an already loaded image changes nothing |
| Pixelation.FloorDiv | image_processor.py:107-108 | Python's `//`: the quotient rounded towards negative infinity, for either sign of the divisor |
| Pixelation.FloorDivZero | utility/image_processor.py:223-226 | for a positive block size, `n // size` is 0 exactly when `n < size`, and never negative |
| Pixelation.FloorDivNegative | utility/image_processor.py:223-224 | for a negative block size, `n // size` is negative for every positive `n` |
| Pixelation.QuantizeColors | image_processor.py:57-71 | always opaque RGB of the same size with at most `num_colors` colours; fails exactly when quantize raises |
| Pixelation.ResizeImage | image_processor.py:38-55 | `maintain_aspect` defaults to true; with it the same object is shrunk in place and returned; otherwise a new image of exactly the target size is returned and the argument is untouched |
| Pil.Picture.constructor | utility/image_processor.py:51-68 | an image object holding the given image, the one `thumbnail` mutates in place |
| Pil.NewImage | utility/image_processor.py:113 | `Image.new` gives the requested mode and size, filled with the given colour |
| Pil.ConvertRGB | utility/image_processor.py:136 | `convert('RGB')` gives opaque RGB of the same size with the same colours |
| Pil.ConvertRGBA | utility/image_processor.py:39-40 | `convert('RGBA')` gives RGBA of the same size with the same pixels |
| Pil.AlphaPlane | utility/image_processor.py:137 | `split()[3]` is the alpha value of every pixel |
| Pil.PutAlpha | utility/image_processor.py:146 | `putalpha` installs exactly the given alpha plane and keeps the colours |
| Pil.Paste | utility/image_processor.py:145 | an unmasked paste copies every colour of the source |
| Pil.PasteMasked | utility/image_processor.py:117 | a masked paste blends each pixel by the source's alpha |
| Formats.Lower | utility/image_processor.py:260 | `lower()` changes exactly the ASCII capitals, character by character |
| Formats.Join | utility/image_processor.py:260 | `'.'.join(parts)`, the inverse `split` is checked against: it starts with the first part |
| Formats.Split | utility/image_processor.py:260 | `split('.')` is never empty, no part holds a '.', and joining with '.' gives the string back |
| Formats.Extension | utility/image_processor.py:260 | `file_path.lower().split('.')[-1]` holds no '.' |
| Formats.ExtensionIsLastSegment | utility/image_processor.py:260 | the extension is a dot-free suffix of the lower-cased path that is the whole path or follows a '.' |
| Formats.ExtensionOfJoin | utility/image_processor.py:260 | for `stem.ext` with a dot-free `ext`, the extension is `ext` lower-cased |
| Formats.NoDotWholePath | utility/image_processor.py:260 | without a '.', the extension is the whole lower-cased path |
| Formats.SaveOptionsFor | utility/image_processor.py:259-270 | JPEG exactly for jpg or jpeg, with the quality; BMP exactly for bmp, without optimize; PNG otherwise, optimized |
| Formats.LowerIdempotent | utility/image_processor.py:260 | lower-casing twice is lower-casing once |
| Formats.DispatchIgnoresCase | image_processor.py:144-154 | the chosen format does not depend on letter case |
| Formats.DispatchByFinalSegment | image_processor.py:144-154 | `stem.ext` is saved by `ext` alone: jpg/jpeg give JPEG, bmp gives BMP, anything else PNG |
| Formats.DispatchWithoutDot | utility/image_processor.py:260-270 | a path without '.' is judged by its whole name, so "photo" is PNG and a file named "JPG" is JPEG |
| Variants.LoadAgrees | image_processor.py:29-33 | both variants load a non-transparent image as the same RGB image |
| Variants.ReduceAgrees | image_processor.py:107-120 | on RGB the alpha-aware reduction equals the RGB-only one |
| Variants.PixelateAgrees | image_processor.py:73-126 | for a non-transparent image both variants produce the same outcome, whatever the background and `preserve_transparency` |

## Left out

- The user interface (main.py, ui_components.py, utility/ui_components.py) and the background thread
  that runs the pipeline are outside the core and are not modelled.
- utility/__init__.py only re-exports names and is not part of this model.
- File input and output are parameters. `load_image` receives what `Image.open` decoded, with None
  standing for the exception it raises. `save_image` receives the codec as an `encoder` function that
  is given the image, the path and the chosen options.
- Exceptions become `Option` results or `Outcome.Failed`. The error messages that are printed are not
  modelled.
- The arithmetic of PIL is not modelled. This covers the median-cut quantizer, the contrast and colour
  enhancers, the aspect-ratio computation of `thumbnail`, which pixel nearest-neighbour sampling
  picks, and the blend rule of a masked paste. These calls are abstract functions constrained only by
  `Lawful`.
- UtilityProcessor.ImageProcessor.LoadImage: `convert` is total in the model. In the source `Image.open` is lazy, so a decoding error can surface inside `convert` after `original_image` has been set to the unconverted image and `has_transparency` has been updated. The source then returns False with that raw image stored. The model does not represent this path; its "a failure changes nothing" covers a failing `Image.open` only.
- BasicProcessor.ImageProcessor.LoadImage: likewise, a `convert` that raises leaves the unconverted image in `original_image` while returning False; the model does not represent this path.
- The `copy()` of the original in `apply_pixelation` is total; images are values, so the copy is the image itself.
- RGB-to-RGBA conversion of L, LA and P is not modelled channel by channel. Each pixel already holds
  its resolved colour and alpha, and conversion to RGBA keeps them.
- Formats.Lower: only ASCII letters are lower-cased. Python's Unicode case mapping is not modelled.
- UtilityProcessor.InfoFor: the 'Unknown' default of `getattr(..., 'format', 'Unknown')` cannot
  arise, because a PIL image always has a `format` attribute. A missing format is None.
- UtilityProcessor.ImageProcessor.ApplyPixelation: the model does not state how many colours a
  result has beyond the quantizer's bound, and it makes no claim that blocks are uniform.
- Pixelation.ResizeImage: the thumbnail's exact size and the aspect ratio are not stated, only that
  the thumbnail never grows. Aliasing is modelled only for this in-place call.
- The numbers in a background colour are bytes (0-255). A tuple out of that range, which the setter
  accepts in Python, is not representable.
- The numeric type of `contrast` and `saturation` is exact real arithmetic rather than floating point.
  Only the comparison with 1.0 matters to the model.
