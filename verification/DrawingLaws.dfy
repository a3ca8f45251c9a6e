/** What the clipped rectangles mean on the panel, compared with the rectangle the caller asked for. */
module DrawingLaws {
  import opened Words
  import opened Pixels
  import opened Frames
  import opened Panels
  import opened Drawing

  /** No pixel of the frame already shows one of the colours that are about to be drawn. */
  ghost predicate NoneShown(f: Frame, w: nat, h: nat, s: Source) {
    forall y, x, c, r :: 0 <= y < |f| && 0 <= x < |f[y]| && 0 <= c < w && 0 <= r < h ==> f[y][x] != Shade(s, c, r)
  }

  /**
   * When a drawing call reaches exactly the visible part of the rectangle it was asked for: nothing is
   * visible vertically; or the bottom edge wraps, and nothing is visible horizontally either; or the left
   * edge is on the panel and the width survives narrowing as far as the panel reaches; or the left edge is
   * off the panel and the narrowed width is 0, so that the clamp to the last column draws nothing.
   */
  predicate MeetsRequest(xsize: U16, ysize: U16, x: U32, y: U32, w: U32, h: U32) {
    || y >= ysize || h == 0
    || (if y + h >= U32_MOD then x >= xsize || w == 0
        else if x < xsize then w < U16_MOD || w % U16_MOD >= xsize - x
        else w % U16_MOD == 0)
  }

  ghost predicate SamePixel(xsize: U16, ysize: U16, x: U32, y: U32, w: U32, h: U32, px: nat, py: nat)
    requires xsize >= 1
  {
    Clip(xsize, ysize, x, y, w, h).Has(px, py) <==> Rect(x, y, w, h).Has(px, py)
  }

  /** The clip agrees with the request on every pixel of the panel, and where both hold they share an origin. */
  lemma ClipAgrees(xsize: U16, ysize: U16, x: U32, y: U32, w: U32, h: U32, px: nat, py: nat)
    requires xsize >= 1 && px < xsize && py < ysize && MeetsRequest(xsize, ysize, x, y, w, h)
    ensures SamePixel(xsize, ysize, x, y, w, h, px, py)
    ensures Rect(x, y, w, h).Has(px, py) ==>
              Clip(xsize, ysize, x, y, w, h).x == x && Clip(xsize, ysize, x, y, w, h).y == y
  {
    ClipRows(xsize, ysize, x, y, w, h);
    ClipColumns(xsize, ysize, x, y, w, h);
  }

  lemma ClipRows(xsize: U16, ysize: U16, x: U32, y: U32, w: U32, h: U32)
    requires xsize >= 1
    ensures var a := Clip(xsize, ysize, x, y, w, h);
            if y >= ysize || y + h >= U32_MOD then a.h == 0
            else a.y == y && a.h == if y + h <= ysize then h else ysize - y
  {
  }

  lemma ClipColumns(xsize: U16, ysize: U16, x: U32, y: U32, w: U32, h: U32)
    requires xsize >= 1
    ensures var a := Clip(xsize, ysize, x, y, w, h);
            && (x < xsize ==> a.x == x && a.w == if w % U16_MOD < xsize - x then w % U16_MOD else xsize - x)
            && (x >= xsize ==> (a.w == 0 <==> w % U16_MOD == 0))
  {
  }

  lemma RequestMet(f: Frame, xsize: U16, ysize: U16, x: U32, y: U32, w: U32, h: U32, s: Source)
    requires xsize >= 1 && Sized(f, xsize, ysize) && MeetsRequest(xsize, ysize, x, y, w, h)
    ensures Paint(f, Clip(xsize, ysize, x, y, w, h), s) == Paint(f, Rect(x, y, w, h), s)
  {
    var g, wanted := Paint(f, Clip(xsize, ysize, x, y, w, h), s), Paint(f, Rect(x, y, w, h), s);
    forall py, px | 0 <= py < |g| && 0 <= px < |g[py]| ensures g[py][px] == wanted[py][px] {
      ClipAgrees(xsize, ysize, x, y, w, h, px, py);
      assert SamePixel(xsize, ysize, x, y, w, h, px, py);
    }
    FramesEqual(g, wanted);
  }

  /** A pixel on which the clip and the request differ, when they do. */
  lemma RequestMissedAt(xsize: U16, ysize: U16, x: U32, y: U32, w: U32, h: U32) returns (px: nat, py: nat)
    requires xsize >= 1 && !MeetsRequest(xsize, ysize, x, y, w, h)
    ensures px < xsize && py < ysize && !SamePixel(xsize, ysize, x, y, w, h, px, py)
  {
    ClipRows(xsize, ysize, x, y, w, h);
    ClipColumns(xsize, ysize, x, y, w, h);
    py := y;
    if y + h >= U32_MOD {
      px := x;
    } else if x < xsize {
      px := x + w % U16_MOD;
    } else {
      px := Clip(xsize, ysize, x, y, w, h).x;
    }
  }

  /**
   * Rectangles, icons and glyph rows are drawn as asked, clipped to the panel, exactly when MeetsRequest
   * holds; the comparison is made on a frame that shows none of the colours drawn.
   */
  lemma DrawnAsRequested(f: Frame, xsize: U16, ysize: U16, x: U32, y: U32, w: U32, h: U32, s: Source)
    requires xsize >= 1 && Sized(f, xsize, ysize) && NoneShown(f, w, h, s)
    ensures Paint(f, Clip(xsize, ysize, x, y, w, h), s) == Paint(f, Rect(x, y, w, h), s)
            <==> MeetsRequest(xsize, ysize, x, y, w, h)
  {
    if MeetsRequest(xsize, ysize, x, y, w, h) {
      RequestMet(f, xsize, ysize, x, y, w, h, s);
    } else {
      var px, py := RequestMissedAt(xsize, ysize, x, y, w, h);
      assert f[py][px] == f[py][px];
      assert Paint(f, Clip(xsize, ysize, x, y, w, h), s)[py][px] != Paint(f, Rect(x, y, w, h), s)[py][px];
    }
  }

  /** A rectangle whose left edge is one past the panel still colours the last column. */
  lemma OffPanelDrawsLastColumn()
    ensures Clip(10, 10, 10, 0, 1, 1).Has(9, 0) && !Rect(10, 0, 1, 1).Has(9, 0)
  {
  }

  /** For arguments that a 16-bit caller can pass, being on the panel or empty is all that is asked. */
  lemma MeetsRequest16(xsize: U16, ysize: U16, x: U16, y: U16, w: U16, h: U16)
    ensures MeetsRequest(xsize, ysize, x, y, w, h) <==> x < xsize || y >= ysize || w == 0 || h == 0
  {
  }

  /** Every pixel of a rectangle shows a colour. */
  ghost predicate Shows(f: Frame, a: Rect, color: Pixel) {
    forall y, x :: 0 <= y < |f| && 0 <= x < |f[y]| && a.Has(x, y) ==> f[y][x] == color
  }

  /**
   * One call and two calls for its upper and lower part agree, on every frame, unless the bottom edge wraps
   * with the upper part visible and not yet shown.
   */
  lemma FillSplits(f: Frame, xsize: U16, ysize: U16, x: U32, y: U32, w: U32, h1: U32, h2: U32, color: Pixel)
    requires xsize >= 1 && Sized(f, xsize, ysize)
    requires y + h1 < U32_MOD && h1 + h2 < U32_MOD
    ensures Paint(Paint(f, Clip(xsize, ysize, x, y, w, h1), Solid(color)),
                  Clip(xsize, ysize, x, y + h1, w, h2), Solid(color))
            == Paint(f, Clip(xsize, ysize, x, y, w, h1 + h2), Solid(color))
            <==> y + h1 + h2 < U32_MOD || y >= ysize || h1 == 0 || w % U16_MOD == 0
                 || Shows(f, Clip(xsize, ysize, x, y, w, h1), color)
  {
    hide Min16;
    var s := Solid(color);
    var upper, lower := Clip(xsize, ysize, x, y, w, h1), Clip(xsize, ysize, x, y + h1, w, h2);
    var all := Clip(xsize, ysize, x, y, w, h1 + h2);
    ClipRows(xsize, ysize, x, y, w, h1);
    ClipRows(xsize, ysize, x, y + h1, w, h2);
    ClipRows(xsize, ysize, x, y, w, h1 + h2);
    ClipColumns(xsize, ysize, x, y, w, h1);
    if y + h1 + h2 < U32_MOD || y >= ysize || h1 == 0 || w % U16_MOD == 0 {
      SplitRows(upper, lower, all);
      FramesEqual(Paint(Paint(f, upper, s), lower, s), Paint(f, all, s));
    } else {
      WrappedSplit(f, upper, lower, all, color);
    }
  }

  /** When the bottom edge wraps, one call draws nothing and two calls draw the upper part. */
  lemma WrappedSplit(f: Frame, upper: Rect, lower: Rect, all: Rect, color: Pixel)
    requires lower.h <= 0 && all.h <= 0
    ensures Paint(Paint(f, upper, Solid(color)), lower, Solid(color)) == Paint(f, all, Solid(color))
            <==> Shows(f, upper, color)
  {
    var s := Solid(color);
    var painted := Paint(f, upper, s);
    PaintNothing(painted, lower, s);
    PaintNothing(f, all, s);
    if Shows(f, upper, color) {
      FramesEqual(painted, f);
    } else {
      var y, x :| 0 <= y < |f| && 0 <= x < |f[y]| && upper.Has(x, y) && f[y][x] != color;
      assert painted[y][x] == color;
    }
  }

  lemma SplitRows(upper: Rect, lower: Rect, all: Rect)
    requires upper.h >= 0 && lower.h >= 0 && all.h >= 0
    requires upper.x == lower.x == all.x && upper.w == lower.w == all.w
    requires all.w == 0 || (upper.h == lower.h == all.h == 0)
             || (upper.h == 0 && (lower.h == all.h == 0 || (lower.y == all.y && lower.h == all.h)))
             || (upper.y == all.y && upper.h + lower.h == all.h && (lower.h == 0 || lower.y == upper.y + upper.h))
    ensures forall px, py :: all.Has(px, py) <==> upper.Has(px, py) || lower.Has(px, py)
  {
  }

  /** Drawings over disjoint areas can be made in either order. */
  lemma DisjointDrawingsCommute(f: Frame, a: Rect, s: Source, b: Rect, t: Source)
    requires forall px, py :: !(a.Has(px, py) && b.Has(px, py))
    ensures Paint(Paint(f, a, s), b, t) == Paint(Paint(f, b, t), a, s)
  {
    FramesEqual(Paint(Paint(f, a, s), b, t), Paint(Paint(f, b, t), a, s));
  }

  /** Every pixel after a drawing at a column on the panel, when neither edge wraps. */
  lemma DrawnPixel(f: Frame, xsize: U16, ysize: U16, x: U32, y: U32, w: U32, h: U32, s: Source, px: nat, py: nat)
    requires Sized(f, xsize, ysize) && px < xsize && py < ysize
    requires x < xsize && w < U16_MOD && y + h < U32_MOD
    ensures Paint(f, Clip(xsize, ysize, x, y, w, h), s)[py][px] ==
            if x <= px < x + w && y <= py < y + h then
              match s
              case Solid(color) => color
              case Image(_, _) => Shade(s, px - x, py - y)
            else f[py][px]
  {
    ClipRows(xsize, ysize, x, y, w, h);
    ClipColumns(xsize, ysize, x, y, w, h);
  }

  /**
   * Row `r`, column `c` of an image drawn at a column on the panel lands at column `x + c` of line `y + r`,
   * and is pixel `r * width + c` of the source.
   */
  lemma ImagePixel(f: Frame, xsize: U16, ysize: U16, x: U16, y: U16, width: U16, height: U16, src: seq<Pixel>,
                   format: PixelFormat, r: nat, c: nat)
    requires xsize >= 1 && Sized(f, xsize, ysize) && |src| >= width * height
    requires r < height && c < width && x + c < xsize && y + r < ysize
    ensures 0 <= r * width + c < |src|
    ensures Paint(f, Clip(xsize, ysize, x, y, width, height), Image(VisibleLine(format, src), width))[y + r][x + c]
            == Visible(format, src[r * width + c])
  {
    InImage(width, height, r, c);
    ClipRows(xsize, ysize, x, y, width, height);
    ClipColumns(xsize, ysize, x, y, width, height);
    var a, s := Clip(xsize, ysize, x, y, width, height), Image(VisibleLine(format, src), width);
    assert a.Has(x + c, y + r) && x + c - a.x == c && y + r - a.y == r;
    assert Shade(s, c, r) == Visible(format, src[r * width + c]);
  }

  lemma InImage(width: nat, height: nat, r: nat, c: nat)
    requires r < height && c < width
    ensures 0 <= r * width + c < width * height
  {
    MulLess(width, r, height);
  }

  /** Every write of a drawing call is one the device accepts, from a buffer sized for the panel's longer side. */
  lemma WritesAcceptable(caps: Capabilities, x: U32, y: U32, w: U32, h: U32, k: nat)
    requires caps.Width() >= 1
    requires k < Clip(caps.Width(), caps.Height(), x, y, w, h).h
    ensures var longest := if caps.Width() > caps.Height() then caps.Width() else caps.Height();
            var a := Clip(caps.Width(), caps.Height(), x, y, w, h);
            Acceptable(caps, longest * BytesPerPixel(caps.format), LineWrites(a, caps.format)[k])
            && (LineWrites(a, caps.format)[k].desc.frameIncomplete <==> k + 1 < |LineWrites(a, caps.format)|)
  {
  }
}
