# pi-frame image preparation, modelled in Dafny

pi-frame shows a picture on an e-paper panel. Before the picture is sent to
the panel, `Processor` in `prepare_image.py` prepares it in four stages,
always in this order:

1. **scale**: resize the image to fit the display without distortion;
2. **center**: paste the scaled image in the middle of a display-sized
   background of the padding colour;
3. **add_text**: only when the banner text is present and longer than one
   character, black out a strip at the top and write the text on it;
4. **flip**: mirror the result left to right, because the panel shows its
   input mirrored.

The model has five modules:

- `Results` (`results.dfy`): option, result and outcome datatypes. They
  stand for Python's `None` and for the exceptions that abort `process`.
- `Scaling` (`scaling.dfy`): the integer arithmetic of `scale` and of
  `center`'s offsets, as pure functions with lemmas. The float test
  `dw / dh > iw / ih` becomes `dw * ih > iw * dh`, since both denominators
  are positive. `int(a / b)` with non-negative operands becomes floor
  division. `int((room) / 2)` truncates toward zero, which matters when an
  image wider than the display is centered.
- `Raster` (`raster.dfy`): pixel grids (`seq<seq<Pixel>>`, row by row) and
  what the image-library calls mean on them. `Solid` is `Image.new`,
  `Pasted` is `paste` (clipped, no blending), `Painted` is
  `ImageDraw.rectangle` (both corners included), and `Mirrored` is the
  left-right transpose.
- `Images` (`images.dfy`): class `Image` over an `array2<Pixel>`. `Paste`
  and `Rectangle` change pixels in place with loops, and each is proved to
  produce the matching `Raster` function of the old pixels. `New`,
  `FlipLeftRight` and `Resize` allocate a fresh image.
- `PrepareImage` (`prepare_image.dfy`): class `Processor` with the
  working image `img` and the fixed configuration. `Scale`, `Center`,
  `AddText` and `Process` follow the source's methods, and `Process`
  reassigns `img` stage by stage. The pure function `Prepared` states what
  the whole pipeline produces from a scaled image, and the lemmas about it
  state the pipeline's properties.

Zero dimensions are not excluded by preconditions. Python raises
`ZeroDivisionError` when the display height or the image height is zero,
and in the fit-to-width branch when the image width is zero. The model
returns `Failure(DivisionByZero)` in exactly those cases. A truncated size
with a zero side (for example a 1x1000 image on an 800x600 display, whose
width `1 * 600 / 1000` truncates to 0) makes the library's `resize` raise
`ValueError`; the model returns `Failure(EmptyResize)`. `Process` then
leaves `img` unchanged, just as the exception in the source leaves
`self.img` unassigned.

`center` does not check its offsets: centering an image larger than the
display gives a negative offset (`int()` truncates toward zero) and the
paste is clipped. `CenterOffset` and `Centered` do the same. After a
successful scale the offsets are never negative (`ScaledImageFits`), so
clipping never happens inside `process`.

## Model

| member | source | states |
|---|---|---|
| `Scaling.ScaledSize` | prepare_image.py:31-39 | a successful scaled size has no zero side and never exceeds the display in either axis |
| `Scaling.FitsToHeight` | prepare_image.py:31-39 | when the display is relatively wider (`dw * ih > iw * dh`), the height is the display height and the width is the largest `w` with `w * ih <= iw * dh`, hence strictly less than the display width; it succeeds exactly when `iw * dh >= ih` |
| `Scaling.FitsToWidth` | prepare_image.py:31-39 | otherwise the width is the display width and the height is the largest `h` with `h * iw <= ih * dw`, hence at most the display height; it succeeds exactly when `dw > 0` and `ih * dw >= iw` |
| `Scaling.DivisionByZeroExactly` | prepare_image.py:31-36 | `scale` raises a division by zero exactly when the display height or the image height is zero, or both widths are zero |
| `Scaling.CenterOffset` | prepare_image.py:56-57 | the offset is half the room truncated toward zero: for non-negative room `0 <= 2o <= room <= 2o + 1`, for negative room `room <= 2o <= 0` and `2o - 1 <= room` |
| `Scaling.CenterBalanced` | prepare_image.py:56-57 | the margin before the image and the margin after it differ by at most one pixel, the one after being the larger |
| `Scaling.ScaledImageFits` | prepare_image.py:38-57 | after a successful scale both centering offsets are non-negative and the image ends inside the display |
| `Scaling.LandscapeExample` | prepare_image.py:31-57 | 800x600 on a 1200x825 display scales to 1100x825 and is centered at (50, 0) |
| `Scaling.PortraitExample` | prepare_image.py:31-57 | 1000x2000 on an 800x600 display scales to 300x600 and is centered at (250, 0) |
| `Raster.MirroredTwice` | prepare_image.py:25 | flipping left to right twice gives back every pixel |
| `Raster.MirroredRows` | prepare_image.py:25 | each row of the flipped image is the original row reversed, so it holds the same pixels |
| `Images.Image.New` | prepare_image.py:55 | a fresh image of the requested width and height, every pixel the given colour |
| `Images.Image.Paste` | prepare_image.py:58 | the pixels covered by the pasted image become the source pixels shifted by the offset, clipped to the destination; all others keep their old value |
| `Images.Image.Rectangle` | prepare_image.py:46-48 | the pixels of the rectangle, both corners included and clipped to the image, take the fill colour; all others keep their old value |
| `Images.Image.FlipLeftRight` | prepare_image.py:25 | a fresh image of the same size whose column `x` is column `w - 1 - x` of the original |
| `Images.Image.Resize` | prepare_image.py:38-39 | a fresh image of exactly the requested width and height |
| `PrepareImage.Centered` | prepare_image.py:55-60 | the centered image has exactly the display's width and height, whatever the size of the image being centered |
| `PrepareImage.Bannered` | prepare_image.py:46-48 | filling the banner strip keeps the image's size |
| `PrepareImage.Prepared` | prepare_image.py:21-25 | the pipeline's output has exactly the display's width and height |
| `PrepareImage.CenterPlacement` | prepare_image.py:55-58 | for an image that fits, the offsets are non-negative, every pixel inside the pasted rectangle is the image's pixel shifted by the offsets, every other pixel is the padding colour, and every image pixel appears in the result |
| `PrepareImage.BannerStrip` | prepare_image.py:46-48 | rows 0 to 75 become the banner colour across the whole width, and every lower row keeps its pixels |
| `PrepareImage.ShortTextSkipsBanner` | prepare_image.py:23-24 | with absent, empty or one-character text the output equals the output with no text |
| `PrepareImage.BannerOnlyInStrip` | prepare_image.py:23-24 | below row 75 the output with a banner equals the output without one |
| `PrepareImage.MirrorIsLast` | prepare_image.py:21-25 | the flip is applied last and whatever the text: flipping the output again gives the centered image, with the banner strip exactly when the text is longer than one character |
| `PrepareImage.PreparedAt` | prepare_image.py:21-25 | end to end, for an image that fits: output pixel `(x, y)` is the banner colour in the strip when there is a banner, otherwise the scaled image's pixel at the mirrored column shifted by the offsets inside the pasted rectangle, otherwise the padding colour |
| `PrepareImage.Processor.constructor` | prepare_image.py:9-14 | the processor holds the given image, display size, banner text (none by default) and padding colour (black by default) |
| `PrepareImage.Processor.Scale` | prepare_image.py:27-41 | it fails exactly when `ScaledSize` fails, with the same error; otherwise it returns a fresh image of the scaled size |
| `PrepareImage.Processor.Center` | prepare_image.py:53-60 | it returns a fresh display-sized image whose pixels are `Centered` of the input's pixels |
| `PrepareImage.Processor.AddText` | prepare_image.py:43-51 | it fills the banner strip of the given image in place and returns that same image |
| `PrepareImage.Processor.Process` | prepare_image.py:16-25 | if scaling fails, the error is returned and `img` is unchanged; otherwise `img` becomes a fresh display-sized image equal to `Prepared` of some image of the scaled size, with the processor's padding colour and text |

## Left out

- `show_image.py` is not part of this model. It parses the command line and drives the e-paper panel, which is device I/O. It only shows that the display size comes from the panel driver's `width` and `height`.
- Decoding the image file with `Image.open` (prepare_image.py:10) is left out. The constructor takes an already decoded `Image`.
- Font loading and glyph drawing (prepare_image.py:44, 49) are left out: they need a font library and a font file. The banner is modelled as its rectangle fill only, so the model's strip is all black, with no text drawn over it.
- PrepareImage.Processor.Process: does not model a failure to load the font (prepare_image.py:44). That failure raises `OSError` after centering and leaves `self.img` holding the centered, unflipped image. The contract instead says that `Process` fails exactly when scaling fails. The contract also says nothing about glyphs. Text containing line breaks is drawn on several lines, and those lines can reach below row 75, so `BannerStrip` and `BannerOnlyInStrip` describe the rectangle fill only.
- Images.Image.Resize: states only the output size. The library's resampling filter is not modelled, and the body's nearest-pixel sampling is a stand-in. The method requires a non-empty source image; after a successful `ScaledSize` the source always has positive sides.
- PrepareImage.Processor.Process: states the output as `Prepared` of some image of the scaled size, not of a particular one, because the resize filter's pixel values are not modelled.
- Python float rounding in `/` and `int()` (prepare_image.py:31-32, 36, 56-57) is replaced by exact integer arithmetic. Float results can differ from the exact ones once a product of two sides, such as `iw * dh`, nears 2^53, that is for sides around 2^26 pixels.
- Pixel mode and colour representation (`img.mode`, tuple colours) are left out: a pixel is an RGB triple compared only for equality, and a fill of `0` is black.
- The constructor's `None` defaults for the display size are not modelled. With `None`, the division at prepare_image.py:31 raises `TypeError`; the model takes natural numbers.
