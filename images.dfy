/** Images whose pixels the pipeline changes in place, as the image
    library's `Image` objects: `paste` and a drawing context's `rectangle`
    overwrite pixels of an existing image, while `new`, `resize` and
    `transpose` allocate a fresh one. */
module Images {
  import opened Raster

  class Image {
    /** Row-major pixels: `pixels[y, x]` is column `x` of row `y`. */
    const pixels: array2<Pixel>

    function Width(): nat { pixels.Length1 }

    function Height(): nat { pixels.Length0 }

    /** The pixels as a grid, for specifications. */
    ghost function Grid(): (g: Grid)
      reads pixels
      ensures Shaped(g, Width(), Height())
      ensures forall y, x :: 0 <= y < Height() && 0 <= x < Width() ==> g[y][x] == pixels[y, x]
    {
      seq(pixels.Length0, y requires 0 <= y < pixels.Length0 reads pixels =>
        seq(pixels.Length1, x requires 0 <= x < pixels.Length1 reads pixels => pixels[y, x]))
    }

    /** Wraps an existing pixel buffer. */
    constructor Of(a: array2<Pixel>)
      ensures pixels == a
    {
      pixels := a;
    }

    /** `Image.new(mode, (w, h), color)`: a fresh image of one colour. */
    constructor New(w: nat, h: nat, color: Pixel)
      ensures fresh(pixels)
      ensures Width() == w && Height() == h
      ensures Grid() == Solid(w, h, color)
    {
      pixels := new Pixel[h, w]((_, _) => color);
      new;
      SameGrid(Grid(), Solid(w, h, color), w, h);
    }

    /** `paste(src, (ox, oy))`: overwrites the pixels that `src` covers when
        its corner is at `(ox, oy)`, clipped to this image. */
    method Paste(src: Image, ox: int, oy: int)
      requires src.pixels != pixels
      modifies pixels
      ensures Grid() == Pasted(old(Grid()), Width(), Height(), src.Grid(), src.Width(), src.Height(), ox, oy)
    {
      ghost var before := Grid();
      var top := if oy < 0 then 0 else oy;
      var bottom := if oy + src.Height() < Height() then oy + src.Height() else Height();
      var left := if ox < 0 then 0 else ox;
      var right := if ox + src.Width() < Width() then ox + src.Width() else Width();
      if top < bottom && left < right {
        var y := top;
        while y < bottom
          invariant top <= y <= bottom
          invariant forall j, i :: 0 <= j < Height() && 0 <= i < Width() ==>
            pixels[j, i] == if top <= j < y && left <= i < right then src.pixels[j - oy, i - ox] else before[j][i]
        {
          PasteRow(src, ox, oy, y, left, right);
          y := y + 1;
        }
      }
      ghost var srcGrid := src.Grid();
      ghost var pasted := Pasted(before, Width(), Height(), srcGrid, src.Width(), src.Height(), ox, oy);
      forall j, i | 0 <= j < Height() && 0 <= i < Width()
        ensures pixels[j, i] == pasted[j][i]
      {
        PastedAt(before, Width(), Height(), srcGrid, src.Width(), src.Height(), ox, oy, j, i);
      }
      SameGrid(Grid(), pasted, Width(), Height());
    }

    /** One row of a paste: columns `left` to `right` (excluded) of row `y`
        take the pixels of `src` shifted by `(ox, oy)`. */
    method PasteRow(src: Image, ox: int, oy: int, y: nat, left: nat, right: nat)
      requires src.pixels != pixels
      requires y < Height() && left <= right <= Width()
      requires 0 <= y - oy < src.Height() && 0 <= left - ox && right - ox <= src.Width()
      modifies pixels
      ensures forall j, i :: 0 <= j < Height() && 0 <= i < Width() ==>
        pixels[j, i] == if j == y && left <= i < right then src.pixels[j - oy, i - ox] else old(pixels[j, i])
    {
      var x := left;
      while x < right
        invariant left <= x <= right
        invariant forall j, i :: 0 <= j < Height() && 0 <= i < Width() ==>
          pixels[j, i] == if j == y && left <= i < x then src.pixels[j - oy, i - ox] else old(pixels[j, i])
      {
        pixels[y, x] := src.pixels[y - oy, x - ox];
        x := x + 1;
      }
    }

    /** `ImageDraw.rectangle([(x0, y0), (x1, y1)], fill = c, outline = None)`:
        fills the rectangle, both corners included, clipped to this image.
        The library demands that the corners be ordered. */
    method Rectangle(x0: int, y0: int, x1: int, y1: int, c: Pixel)
      requires x0 <= x1 && y0 <= y1
      modifies pixels
      ensures Grid() == Painted(old(Grid()), Width(), Height(), x0, y0, x1, y1, c)
    {
      ghost var before := Grid();
      var top := if y0 < 0 then 0 else y0;
      var bottom := if y1 + 1 < Height() then y1 + 1 else Height();
      bottom := if bottom < top then top else bottom;
      var left := if x0 < 0 then 0 else x0;
      var right := if x1 + 1 < Width() then x1 + 1 else Width();
      right := if right < left then left else right;
      var y := top;
      while y < bottom
        invariant top <= y <= bottom
        invariant forall j, i :: 0 <= j < Height() && 0 <= i < Width() ==>
          pixels[j, i] == if top <= j < y && left <= i < right then c else before[j][i]
      {
        var x := left;
        while x < right
          invariant left <= x <= right
          invariant forall j, i :: 0 <= j < Height() && 0 <= i < Width() ==>
            pixels[j, i] == if (top <= j < y || (j == y && i < x)) && left <= i < right then c else before[j][i]
        {
          pixels[y, x] := c;
          x := x + 1;
        }
        y := y + 1;
      }
      SameGrid(Grid(), Painted(before, Width(), Height(), x0, y0, x1, y1, c), Width(), Height());
    }

    /** `transpose(FLIP_LEFT_RIGHT)`: a fresh image, this one mirrored. */
    method FlipLeftRight() returns (r: Image)
      ensures fresh(r.pixels)
      ensures r.Width() == Width() && r.Height() == Height()
      ensures r.Grid() == Mirrored(Grid(), Width(), Height())
    {
      var w, h := Width(), Height();
      var a := new Pixel[h, w];
      var y := 0;
      while y < h
        invariant 0 <= y <= h
        invariant forall j, i :: 0 <= j < y && 0 <= i < w ==> a[j, i] == pixels[j, w - 1 - i]
      {
        var x := 0;
        while x < w
          invariant 0 <= x <= w
          invariant forall j, i :: 0 <= j < y && 0 <= i < w ==> a[j, i] == pixels[j, w - 1 - i]
          invariant forall i :: 0 <= i < x ==> a[y, i] == pixels[y, w - 1 - i]
        {
          a[y, x] := pixels[y, w - 1 - x];
          x := x + 1;
        }
        y := y + 1;
      }
      r := new Image.Of(a);
      SameGrid(r.Grid(), Mirrored(Grid(), w, h), w, h);
    }

    /** `resize((w, h))`: a fresh image of the requested size. The library
        refuses a zero side. The pixel values of its resampling filter are
        not specified; the body samples the nearest source pixel. */
    method Resize(w: nat, h: nat) returns (r: Image)
      requires w > 0 && h > 0 && Width() > 0 && Height() > 0
      ensures fresh(r.pixels)
      ensures r.Width() == w && r.Height() == h
    {
      var sw, sh := Width(), Height();
      var a := new Pixel[h, w]((y, x) requires 0 <= y < h && 0 <= x < w reads pixels =>
        NearestBelow(y, h, sh);
        NearestBelow(x, w, sw);
        pixels[y * sh / h, x * sw / w]);
      r := new Image.Of(a);
    }
  }

  /** Position `i` of `n` scaled to `m` positions stays below `m`. */
  lemma NearestBelow(i: nat, n: nat, m: nat)
    requires i < n && m > 0
    ensures i * m / n < m
  {
    var q := i * m / n;
    assert q * n <= i * m by {
      assert i * m == n * q + (i * m) % n;
    }
    assert i * m < n * m by {
      assert n * m == i * m + (n - i) * m;
    }
  }
}
