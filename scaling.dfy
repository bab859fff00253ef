/** The integer arithmetic of `Processor.scale` (the size that fits the
    display without distortion) and of `Processor.center` (the margins that
    center the scaled image). Python's float divisions are modelled exactly:
    `dw / dh > iw / ih` by cross-multiplication and `int(a / b)` by floor
    division where `a` and `b` are non-negative. */
module Scaling {
  import opened Results

  /** Width and height of an image, in pixels. */
  datatype Size = Size(width: nat, height: nat)

  /** Why `scale` raises: a zero divisor in the ratio or size arithmetic
      (Python's ZeroDivisionError), or a truncated size with a zero side,
      which the image library's resize refuses. */
  datatype ScaleError = DivisionByZero | EmptyResize

  /** The test `display_width / display_height > img.width / img.height`
      with both denominators positive: the display is relatively wider than
      the image, so the image is fitted to the display height. */
  predicate DisplayIsWider(dw: nat, dh: nat, iw: nat, ih: nat)
  {
    dw * ih > iw * dh
  }

  /** `n / d` is at most `m` when `n` is at most `m * d`. */
  lemma QuotientAtMost(n: nat, d: nat, m: nat)
    requires d > 0 && n <= m * d
    ensures n / d <= m
  {
    var q := n / d;
    assert n == d * q + n % d;
    if q > m {
      assert q * d >= (m + 1) * d by { MultiplyMonotone(m + 1, q, d); }
      assert false;
    }
  }

  /** `n / d` brackets the exact quotient: `(n / d) * d <= n < (n / d + 1) * d`. */
  lemma QuotientBrackets(n: nat, d: nat)
    requires d > 0
    ensures (n / d) * d <= n < (n / d + 1) * d
  {
    var q := n / d;
    assert n == d * q + n % d;
    assert (q + 1) * d == q * d + d;
  }

  /** Multiplying by a natural number keeps order, and a strict order of
      products with a positive factor comes from the other factors. */
  lemma MultiplyMonotone(a: nat, b: nat, d: nat)
    ensures a <= b ==> a * d <= b * d
    ensures d > 0 && a * d < b * d ==> a < b
  {
    if a <= b {
      assert b * d == a * d + (b - a) * d;
    } else {
      assert a * d == b * d + (a - b) * d;
    }
  }

  /** The size `scale` resizes the image to (prepare_image.py:31-39), or the
      error it raises. When the display is relatively wider the height is
      the display height and the width is the truncated
      `img.width * display_height / img.height`; otherwise the width is the
      display width and the height the truncated
      `img.height * display_width / img.width`. A successful size never
      exceeds the display and has no zero side. */
  function ScaledSize(dw: nat, dh: nat, iw: nat, ih: nat): (r: Result<Size, ScaleError>)
    ensures r.Success? ==> 0 < r.value.width <= dw && 0 < r.value.height <= dh
  {
    if dh == 0 || ih == 0 then
      Failure(DivisionByZero)
    else if DisplayIsWider(dw, dh, iw, ih) then
      var w := iw * dh / ih;
      assert iw * dh <= dw * ih;
      QuotientAtMost(iw * dh, ih, dw);
      assert w <= dw;
      if w == 0 then Failure(EmptyResize) else Success(Size(w, dh))
    else if iw == 0 then
      Failure(DivisionByZero)
    else
      var h := ih * dw / iw;
      assert ih * dw <= dh * iw;
      QuotientAtMost(ih * dw, iw, dh);
      assert h <= dh;
      if dw == 0 || h == 0 then Failure(EmptyResize) else Success(Size(dw, h))
  }

  /** When the display is relatively wider, the scaled image takes the full
      display height and the largest width that keeps the image's aspect
      ratio: `w * ih <= iw * dh < (w + 1) * ih`, so `w < dw`. */
  lemma FitsToHeight(dw: nat, dh: nat, iw: nat, ih: nat)
    requires dh > 0 && ih > 0 && DisplayIsWider(dw, dh, iw, ih)
    ensures ScaledSize(dw, dh, iw, ih).Success? <==> iw * dh >= ih
    ensures ScaledSize(dw, dh, iw, ih).Success? ==>
      var s := ScaledSize(dw, dh, iw, ih).value;
      s.height == dh && s.width < dw &&
      s.width * ih <= iw * dh < (s.width + 1) * ih
  {
    var n := iw * dh;
    var w := n / ih;
    QuotientBrackets(n, ih);
    assert w * ih < dw * ih;
    MultiplyMonotone(w, dw, ih);
    if n >= ih {
      assert w != 0;
    }
  }

  /** Otherwise the scaled image takes the full display width and the
      largest height that keeps the aspect ratio:
      `h * iw <= ih * dw < (h + 1) * iw`, so `h <= dh`. */
  lemma FitsToWidth(dw: nat, dh: nat, iw: nat, ih: nat)
    requires dh > 0 && ih > 0 && iw > 0 && !DisplayIsWider(dw, dh, iw, ih)
    ensures ScaledSize(dw, dh, iw, ih).Success? <==> dw > 0 && ih * dw >= iw
    ensures ScaledSize(dw, dh, iw, ih).Success? ==>
      var s := ScaledSize(dw, dh, iw, ih).value;
      s.width == dw && s.height <= dh &&
      s.height * iw <= ih * dw < (s.height + 1) * iw
  {
    var n := ih * dw;
    QuotientBrackets(n, iw);
    if n >= iw {
      assert n / iw != 0;
    }
  }

  /** `scale` raises a ZeroDivisionError exactly when the display height or
      the image height is zero, or when both widths are zero (the else
      branch then divides by the image width). */
  lemma DivisionByZeroExactly(dw: nat, dh: nat, iw: nat, ih: nat)
    ensures ScaledSize(dw, dh, iw, ih) == Failure(DivisionByZero) <==>
      dh == 0 || ih == 0 || (dw == 0 && iw == 0)
  {
  }

  /** The offset `int(room / 2)` that `center` uses (prepare_image.py:56-57):
      half the room, truncated toward zero, so it is negative (the paste is
      clipped) only when the image is larger than the display. */
  function CenterOffset(room: int): (o: int)
    ensures room >= 0 ==> 0 <= 2 * o <= room <= 2 * o + 1
    ensures room < 0 ==> room <= 2 * o <= 0 && 2 * o - 1 <= room
  {
    if room >= 0 then room / 2 else -((-room) / 2)
  }

  /** Centering is balanced: when the image fits, the margin before it
      (the offset) and the margin after it differ by at most one pixel, the
      one after being the larger. */
  lemma CenterBalanced(room: nat)
    ensures var before := CenterOffset(room);
      var after := room - before;
      0 <= before <= after <= before + 1
  {
  }

  /** A successfully scaled image fits the display, so both centering
      offsets are non-negative and the paste is never clipped. */
  lemma ScaledImageFits(dw: nat, dh: nat, iw: nat, ih: nat)
    requires ScaledSize(dw, dh, iw, ih).Success?
    ensures var s := ScaledSize(dw, dh, iw, ih).value;
      CenterOffset(dw - s.width) >= 0 && CenterOffset(dh - s.height) >= 0 &&
      CenterOffset(dw - s.width) + s.width <= dw &&
      CenterOffset(dh - s.height) + s.height <= dh
  {
  }

  /** An 800x600 image on a 1200x825 display is fitted to the height as
      1100x825 and centered at (50, 0). */
  lemma LandscapeExample()
    ensures ScaledSize(1200, 825, 800, 600) == Success(Size(1100, 825))
    ensures CenterOffset(1200 - 1100) == 50 && CenterOffset(825 - 825) == 0
  {
  }

  /** A 1000x2000 image on an 800x600 display is fitted to the height as
      300x600 and centered at (250, 0). */
  lemma PortraitExample()
    ensures ScaledSize(800, 600, 1000, 2000) == Success(Size(300, 600))
    ensures CenterOffset(800 - 300) == 250 && CenterOffset(600 - 600) == 0
  {
  }
}
