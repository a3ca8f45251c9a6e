/** Framebuffers as rows of pixels, and painting a rectangle of them from a source. */
module Frames {
  import opened Pixels

  type Frame = seq<seq<Pixel>>

  ghost predicate Sized(f: Frame, width: nat, height: nat) {
    |f| == height && forall y :: 0 <= y < height ==> |f[y]| == width
  }

  /** A rectangle of framebuffer coordinates; a width or height of 0 or less is empty. */
  datatype Rect = Rect(x: int, y: int, w: int, h: int) {
    predicate Has(px: int, py: int) {
      x <= px < x + w && y <= py < y + h
    }
  }

  /** What a rectangle is filled with: one colour, or an image of rows `stride` pixels apart. */
  datatype Source = Solid(color: Pixel) | Image(pixels: seq<Pixel>, stride: nat)

  /** The source's pixel at column `c` of row `r` (0 outside the image). */
  function Shade(s: Source, c: int, r: int): Pixel {
    match s
    case Solid(color) => color
    case Image(pixels, stride) => if 0 <= r * stride + c < |pixels| then pixels[r * stride + c] else 0
  }

  /** The frame after rectangle `a` was filled from `s`; pixels outside `a` keep their value. */
  function Paint(f: Frame, a: Rect, s: Source): (g: Frame)
    ensures |g| == |f| && forall y :: 0 <= y < |f| ==> |g[y]| == |f[y]|
  {
    seq(|f|, y requires 0 <= y < |f| => PaintRow(f[y], y, a, s))
  }

  function PaintRow(row: seq<Pixel>, y: int, a: Rect, s: Source): (r: seq<Pixel>)
    ensures |r| == |row|
    ensures forall x :: 0 <= x < |row| ==> r[x] == if a.Has(x, y) then Shade(s, x - a.x, y - a.y) else row[x]
  {
    seq(|row|, x requires 0 <= x < |row| => if a.Has(x, y) then Shade(s, x - a.x, y - a.y) else row[x])
  }

  lemma FramesEqual(f: Frame, g: Frame)
    requires |f| == |g| && forall y :: 0 <= y < |f| ==> |f[y]| == |g[y]|
    requires forall y, x :: 0 <= y < |f| && 0 <= x < |f[y]| ==> f[y][x] == g[y][x]
    ensures f == g
  {
    forall y | 0 <= y < |f| ensures f[y] == g[y] {
    }
  }

  /** Painting row `k` of a source below its first `k` rows paints its first `k + 1` rows. */
  lemma PaintNextRow(f: Frame, x: int, y: int, w: int, k: nat, s: Source, row: Source)
    requires forall c :: 0 <= c < w ==> Shade(row, c, 0) == Shade(s, c, k)
    ensures Paint(Paint(f, Rect(x, y, w, k), s), Rect(x, y + k, w, 1), row) == Paint(f, Rect(x, y, w, k + 1), s)
  {
    FramesEqual(Paint(Paint(f, Rect(x, y, w, k), s), Rect(x, y + k, w, 1), row),
                Paint(f, Rect(x, y, w, k + 1), s));
  }

  lemma PaintNothing(f: Frame, a: Rect, s: Source)
    requires a.w <= 0 || a.h <= 0
    ensures Paint(f, a, s) == f
  {
    FramesEqual(Paint(f, a, s), f);
  }
}
