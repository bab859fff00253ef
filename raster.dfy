/** Pixel grids and the meaning of the image-library calls the pipeline
    makes: a new image of one colour, pasting one image onto another at an
    offset, filling a rectangle, and the left-right flip. A grid is a
    sequence of rows, so `g[y][x]` is the pixel in column `x` of row `y`. */
module Raster {

  /** A pixel of an RGB image. The pipeline only copies and compares
      pixels, so their components matter only through equality. */
  datatype Pixel = Rgb(red: nat, green: nat, blue: nat)

  /** The colour `(0, 0, 0)`, also what a fill of `0` means on an RGB image. */
  const Black: Pixel := Rgb(0, 0, 0)

  type Grid = seq<seq<Pixel>>

  /** `g` has `h` rows of `w` pixels each. */
  predicate Shaped(g: Grid, w: nat, h: nat)
  {
    |g| == h && forall y :: 0 <= y < h ==> |g[y]| == w
  }

  /** Two grids of the same shape that agree on every pixel are equal. */
  lemma SameGrid(a: Grid, b: Grid, w: nat, h: nat)
    requires Shaped(a, w, h) && Shaped(b, w, h)
    requires forall y, x :: 0 <= y < h && 0 <= x < w ==> a[y][x] == b[y][x]
    ensures a == b
  {
    forall y | 0 <= y < h
      ensures a[y] == b[y]
    {
      assert forall x :: 0 <= x < w ==> a[y][x] == b[y][x];
    }
  }

  /** A `w` by `h` image filled with `c` (the library's `Image.new`). */
  function Solid(w: nat, h: nat, c: Pixel): (g: Grid)
    ensures Shaped(g, w, h)
  {
    seq(h, _ => seq(w, _ => c))
  }

  /** The destination pixel `(x, y)` is covered by an `sw` by `sh` image
      pasted with its top-left corner at `(ox, oy)`. */
  predicate Covers(ox: int, oy: int, sw: nat, sh: nat, x: int, y: int)
  {
    ox <= x < ox + sw && oy <= y < oy + sh
  }

  /** `dst` with `src` pasted at `(ox, oy)`: covered pixels are overwritten
      by the source pixel at the same place relative to the corner, with no
      blending; the paste is clipped to `dst`, whose size does not change
      (the library's `Image.paste`). */
  function Pasted(dst: Grid, w: nat, h: nat, src: Grid, sw: nat, sh: nat, ox: int, oy: int): (g: Grid)
    requires Shaped(dst, w, h) && Shaped(src, sw, sh)
    ensures Shaped(g, w, h)
  {
    seq(h, y requires 0 <= y < h =>
      seq(w, x requires 0 <= x < w =>
        if Covers(ox, oy, sw, sh, x, y) then src[y - oy][x - ox] else dst[y][x]))
  }

  /** One pixel of a paste. */
  lemma PastedAt(dst: Grid, w: nat, h: nat, src: Grid, sw: nat, sh: nat, ox: int, oy: int, y: nat, x: nat)
    requires Shaped(dst, w, h) && Shaped(src, sw, sh) && y < h && x < w
    ensures Pasted(dst, w, h, src, sw, sh, ox, oy)[y][x] ==
      if Covers(ox, oy, sw, sh, x, y) then src[y - oy][x - ox] else dst[y][x]
  {
  }

  /** The pixel `(x, y)` lies in the rectangle whose corners `(x0, y0)` and
      `(x1, y1)` are both included. */
  predicate InRectangle(x0: int, y0: int, x1: int, y1: int, x: int, y: int)
  {
    x0 <= x <= x1 && y0 <= y <= y1
  }

  /** `g` with the rectangle from `(x0, y0)` to `(x1, y1)`, both corners
      included, filled with `c` and clipped to the image (the library's
      `ImageDraw.rectangle` with a fill and no outline). */
  function Painted(g: Grid, w: nat, h: nat, x0: int, y0: int, x1: int, y1: int, c: Pixel): (r: Grid)
    requires Shaped(g, w, h)
    ensures Shaped(r, w, h)
  {
    seq(h, y requires 0 <= y < h =>
      seq(w, x requires 0 <= x < w =>
        if InRectangle(x0, y0, x1, y1, x, y) then c else g[y][x]))
  }

  /** `g` flipped left to right: column `x` of the result is column
      `w - 1 - x` of `g` (the library's `FLIP_LEFT_RIGHT` transpose). */
  function Mirrored(g: Grid, w: nat, h: nat): (r: Grid)
    requires Shaped(g, w, h)
    ensures Shaped(r, w, h)
  {
    seq(h, y requires 0 <= y < h =>
      seq(w, x requires 0 <= x < w => g[y][w - 1 - x]))
  }

  /** The flip is an involution: flipping twice gives back every pixel. */
  lemma MirroredTwice(g: Grid, w: nat, h: nat)
    requires Shaped(g, w, h)
    ensures Mirrored(Mirrored(g, w, h), w, h) == g
  {
    var m := Mirrored(g, w, h);
    var mm := Mirrored(m, w, h);
    forall y, x | 0 <= y < h && 0 <= x < w
      ensures mm[y][x] == g[y][x]
    {
      assert mm[y][x] == m[y][w - 1 - x] == g[y][x];
    }
    SameGrid(mm, g, w, h);
  }

  /** The flip moves pixels only within their row: row `y` of the result
      is row `y` of `g` reversed, so it holds the same pixels. */
  lemma MirroredRows(g: Grid, w: nat, h: nat, y: nat)
    requires Shaped(g, w, h) && y < h
    ensures Mirrored(g, w, h)[y] == Reversed(g[y])
    ensures multiset(Mirrored(g, w, h)[y]) == multiset(g[y])
  {
    ReversedAt(g[y]);
    ReversedSameElements(g[y]);
  }

  /** A row read from its last pixel to its first, defined by recursion. */
  function Reversed(s: seq<Pixel>): (r: seq<Pixel>)
    ensures |r| == |s|
  {
    if s == [] then [] else Reversed(s[1..]) + [s[0]]
  }

  lemma {:induction false} ReversedAt(s: seq<Pixel>)
    ensures forall k :: 0 <= k < |s| ==> Reversed(s)[k] == s[|s| - 1 - k]
  {
    if s != [] {
      ReversedAt(s[1..]);
    }
  }

  lemma {:induction false} ReversedSameElements(s: seq<Pixel>)
    ensures multiset(Reversed(s)) == multiset(s)
  {
    if s != [] {
      ReversedSameElements(s[1..]);
      assert s == [s[0]] + s[1..];
    }
  }
}
