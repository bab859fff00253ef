/** The image-preparation pipeline of `Processor`: scale the image to fit
    the display without distortion, center it on a background of the
    padding colour, overlay a banner strip when there is banner text of more
    than one character, and flip the result left to right for a display
    that shows its input mirrored. */
module PrepareImage {
  import opened Results
  import opened Scaling
  import opened Raster
  import opened Images

  /** The banner rectangle runs from row 0 to row 75, both included. */
  const BannerBottom: nat := 75

  /** The banner is filled with `0`, black on an RGB image. */
  const BannerFill: Pixel := Black

  /** The banner stage runs only for text that is present and longer than
      one character. */
  predicate ShowsBanner(textmsg: Option<string>)
  {
    textmsg.Some? && |textmsg.value| > 1
  }

  /** What `center` produces from an `sw` by `sh` image: a `dw` by `dh`
      image of the padding colour with the image pasted at the truncated
      half margins. It has the display's size whatever the image's size. */
  function Centered(img: Grid, sw: nat, sh: nat, dw: nat, dh: nat, pad: Pixel): (r: Grid)
    requires Shaped(img, sw, sh)
    ensures Shaped(r, dw, dh)
  {
    Pasted(Solid(dw, dh, pad), dw, dh, img, sw, sh, CenterOffset(dw - sw), CenterOffset(dh - sh))
  }

  /** What `add_text` leaves of a `w` by `h` image, its glyphs aside: the
      strip from `(0, 0)` to `(w, 75)` filled with the banner colour. */
  function Bannered(g: Grid, w: nat, h: nat): (r: Grid)
    requires Shaped(g, w, h)
    ensures Shaped(r, w, h)
  {
    Painted(g, w, h, 0, 0, w, BannerBottom, BannerFill)
  }

  /** What `process` makes of an already scaled `sw` by `sh` image, stage
      by stage: center, the banner when the text asks for it, and the flip
      last of all. */
  function Prepared(scaled: Grid, sw: nat, sh: nat, dw: nat, dh: nat, pad: Pixel, textmsg: Option<string>): (r: Grid)
    requires Shaped(scaled, sw, sh)
    ensures Shaped(r, dw, dh)
  {
    var centered := Centered(scaled, sw, sh, dw, dh, pad);
    var annotated := if ShowsBanner(textmsg) then Bannered(centered, dw, dh) else centered;
    Mirrored(annotated, dw, dh)
  }

  /** When the image fits the display, `center` places it whole and
      unclipped: inside the rectangle at the offsets every pixel is the
      image's pixel shifted by the offsets, every other pixel is the padding
      colour, and every pixel of the image appears in the result. */
  lemma CenterPlacement(img: Grid, sw: nat, sh: nat, dw: nat, dh: nat, pad: Pixel)
    requires Shaped(img, sw, sh) && sw <= dw && sh <= dh
    ensures var ox, oy := CenterOffset(dw - sw), CenterOffset(dh - sh);
      var r := Centered(img, sw, sh, dw, dh, pad);
      0 <= ox && ox + sw <= dw && 0 <= oy && oy + sh <= dh &&
      (forall y, x :: 0 <= y < dh && 0 <= x < dw ==>
        r[y][x] == if Covers(ox, oy, sw, sh, x, y) then img[y - oy][x - ox] else pad) &&
      (forall y, x :: 0 <= y < sh && 0 <= x < sw ==> r[y + oy][x + ox] == img[y][x])
  {
    var ox, oy := CenterOffset(dw - sw), CenterOffset(dh - sh);
    var r := Centered(img, sw, sh, dw, dh, pad);
    forall y, x | 0 <= y < sh && 0 <= x < sw
      ensures r[y + oy][x + ox] == img[y][x]
    {
      assert Covers(ox, oy, sw, sh, x + ox, y + oy);
    }
  }

  /** The banner changes only its strip: rows 0 to 75 become the banner
      colour across the whole width and every row below keeps its pixels. */
  lemma BannerStrip(g: Grid, w: nat, h: nat)
    requires Shaped(g, w, h)
    ensures forall y, x :: 0 <= y < h && 0 <= x < w ==>
      Bannered(g, w, h)[y][x] == if y <= BannerBottom then BannerFill else g[y][x]
  {
  }

  /** With absent, empty or one-character text the pipeline gives exactly
      what it gives with no text at all: the banner stage is skipped. */
  lemma ShortTextSkipsBanner(scaled: Grid, sw: nat, sh: nat, dw: nat, dh: nat, pad: Pixel, textmsg: Option<string>)
    requires Shaped(scaled, sw, sh)
    requires textmsg.None? || |textmsg.value| <= 1
    ensures Prepared(scaled, sw, sh, dw, dh, pad, textmsg) == Prepared(scaled, sw, sh, dw, dh, pad, None)
  {
  }

  /** The flip is the last stage and it is applied whatever the text:
      flipping the output once more gives back the centered image, with
      the banner strip exactly when the text asks for one. */
  lemma MirrorIsLast(scaled: Grid, sw: nat, sh: nat, dw: nat, dh: nat, pad: Pixel, textmsg: Option<string>)
    requires Shaped(scaled, sw, sh)
    ensures var centered := Centered(scaled, sw, sh, dw, dh, pad);
      Mirrored(Prepared(scaled, sw, sh, dw, dh, pad, textmsg), dw, dh) ==
        if ShowsBanner(textmsg) then Bannered(centered, dw, dh) else centered
  {
    var centered := Centered(scaled, sw, sh, dw, dh, pad);
    var annotated := if ShowsBanner(textmsg) then Bannered(centered, dw, dh) else centered;
    MirroredTwice(annotated, dw, dh);
  }

  /** Every pixel of the output, end to end, for an image that fits the
      display: the pixel at `(x, y)` shows the centered image at the
      mirrored column `dw - 1 - x`, except that the banner strip, when
      there is one, covers rows 0 to 75. */
  lemma PreparedAt(scaled: Grid, sw: nat, sh: nat, dw: nat, dh: nat, pad: Pixel, textmsg: Option<string>)
    requires Shaped(scaled, sw, sh) && sw <= dw && sh <= dh
    ensures var ox, oy := CenterOffset(dw - sw), CenterOffset(dh - sh);
      var r := Prepared(scaled, sw, sh, dw, dh, pad, textmsg);
      forall y, x :: 0 <= y < dh && 0 <= x < dw ==>
        r[y][x] ==
          if ShowsBanner(textmsg) && y <= BannerBottom then BannerFill
          else if Covers(ox, oy, sw, sh, dw - 1 - x, y) then scaled[y - oy][dw - 1 - x - ox]
          else pad
  {
    CenterPlacement(scaled, sw, sh, dw, dh, pad);
    BannerStrip(Centered(scaled, sw, sh, dw, dh, pad), dw, dh);
  }

  /** The banner touches only its strip of the output: below row 75 the
      output with a banner equals the output without one. */
  lemma BannerOnlyInStrip(scaled: Grid, sw: nat, sh: nat, dw: nat, dh: nat, pad: Pixel, textmsg: Option<string>)
    requires Shaped(scaled, sw, sh)
    ensures var r := Prepared(scaled, sw, sh, dw, dh, pad, textmsg);
      var plain := Prepared(scaled, sw, sh, dw, dh, pad, None);
      forall y, x :: BannerBottom < y < dh && 0 <= x < dw ==> r[y][x] == plain[y][x]
  {
    BannerStrip(Centered(scaled, sw, sh, dw, dh, pad), dw, dh);
  }

  /** The pipeline state: the working image, reassigned stage by stage,
      and the configuration fixed when the processor is made. */
  class Processor {
    var img: Image
    const displayWidth: nat
    const displayHeight: nat
    const textmsg: Option<string>
    const paddingColor: Pixel

    /** Takes the already decoded source image; the banner text defaults
        to none and the padding colour to black. */
    constructor (img: Image, displayWidth: nat, displayHeight: nat, textmsg: Option<string> := None, paddingColor: Pixel := Black)
      ensures this.img == img && this.displayWidth == displayWidth && this.displayHeight == displayHeight
      ensures this.textmsg == textmsg && this.paddingColor == paddingColor
    {
      this.img := img;
      this.displayWidth := displayWidth;
      this.displayHeight := displayHeight;
      this.textmsg := textmsg;
      this.paddingColor := paddingColor;
    }

    /** `scale`: a fresh image of the size that fits the display, or the
        error the arithmetic or the resize raises. */
    method Scale(img: Image) returns (r: Result<Image, ScaleError>)
      ensures var size := ScaledSize(displayWidth, displayHeight, img.Width(), img.Height());
        (r.Failure? <==> size.Failure?) &&
        (r.Failure? ==> r.error == size.error) &&
        (r.Success? ==>
          fresh(r.value.pixels) &&
          r.value.Width() == size.value.width && r.value.Height() == size.value.height)
    {
      var size := ScaledSize(displayWidth, displayHeight, img.Width(), img.Height());
      if size.Failure? {
        return Failure(size.error);
      }
      var resized := img.Resize(size.value.width, size.value.height);
      r := Success(resized);
    }

    /** `center`: a fresh display-sized image of the padding colour with
        `img` pasted at the truncated half margins. */
    method Center(img: Image) returns (r: Image)
      ensures fresh(r.pixels)
      ensures r.Width() == displayWidth && r.Height() == displayHeight
      ensures r.Grid() == Centered(img.Grid(), img.Width(), img.Height(), displayWidth, displayHeight, paddingColor)
    {
      r := new Image.New(displayWidth, displayHeight, paddingColor);
      var xOffset := CenterOffset(displayWidth - img.Width());
      var yOffset := CenterOffset(displayHeight - img.Height());
      r.Paste(img, xOffset, yOffset);
    }

    /** `add_text`: fills the banner strip of `img` in place and returns
        the same image. */
    method AddText(img: Image) returns (r: Image)
      modifies img.pixels
      ensures r == img
      ensures img.Grid() == Bannered(old(img.Grid()), img.Width(), img.Height())
    {
      img.Rectangle(0, 0, img.Width(), BannerBottom, BannerFill);
      r := img;
    }

    /** `process`: scale, center, the banner when the text is longer than
        one character, and the flip. If scaling fails the working image is
        left as it was; otherwise it becomes a fresh display-sized image
        that is `Prepared` from some image of the scaled size (the resize
        filter's pixel values are not specified). */
    method Process() returns (outcome: Outcome<ScaleError>)
      modifies this
      ensures var size := ScaledSize(displayWidth, displayHeight, old(img).Width(), old(img).Height());
        (outcome.Fail? <==> size.Failure?) &&
        (outcome.Fail? ==> outcome.error == size.error && img == old(img))
      ensures outcome.Pass? ==>
        fresh(img.pixels) && img.Width() == displayWidth && img.Height() == displayHeight
      ensures outcome.Pass? ==>
        var size := ScaledSize(displayWidth, displayHeight, old(img).Width(), old(img).Height()).value;
        exists scaled :: Shaped(scaled, size.width, size.height) &&
          img.Grid() == Prepared(scaled, size.width, size.height, displayWidth, displayHeight, paddingColor, textmsg)
    {
      var scaled := Scale(img);
      if scaled.Failure? {
        return Fail(scaled.error);
      }
      ghost var size := ScaledSize(displayWidth, displayHeight, img.Width(), img.Height()).value;
      img := scaled.value;
      ghost var scaledGrid := img.Grid();
      img := Center(img);
      ghost var centered := img.Grid();
      if textmsg.Some? && |textmsg.value| > 1 {
        img := AddText(img);
      }
      assert img.Grid() == if ShowsBanner(textmsg) then Bannered(centered, displayWidth, displayHeight) else centered;
      img := img.FlipLeftRight();
      assert img.Grid() == Prepared(scaledGrid, size.width, size.height, displayWidth, displayHeight, paddingColor, textmsg);
      outcome := Pass;
    }
  }
}
