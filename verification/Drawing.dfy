/** The rectangle that a drawing call reaches, the writes it issues, and how glyphs are painted. */
module Drawing {
  import opened Words
  import opened Pixels
  import opened Frames
  import opened Panels
  import opened Fonts
  import opened Options

  /** Columns and lines reached by a call for the rectangle (x, y, w, h), as the narrowing minimum clips them. */
  function Clip(xsize: U16, ysize: U16, x: U32, y: U32, w: U32, h: U32): (a: Rect)
    requires xsize >= 1
    ensures 0 <= a.x < xsize && 0 <= a.w && a.x + a.w <= xsize && a.w <= w
    ensures 0 <= a.y && 0 <= a.h && a.y + a.h <= ysize && a.h <= h
  {
    var column := Min16(xsize - 1, x);
    var first := Min16(y, ysize);
    var last := Min16(Add32(y, h), ysize);
    Rect(column, first, Min16(xsize - column, w), if first <= last then last - first else 0)
  }

  /** One write per line of `a`; every line but the last is marked as followed by more. */
  function LineWrites(a: Rect, format: PixelFormat): (ws: seq<Write>)
    requires a.x >= 0 && a.y >= 0 && a.w >= 0 && a.h >= 0
    ensures |ws| == a.h
  {
    seq(a.h, i requires 0 <= i < a.h =>
      Write(a.x, a.y + i, Descriptor(a.w * BytesPerPixel(format), a.w, 1, a.w, i + 1 < a.h)))
  }

  /** The log has grown by complete one-line writes that the device accepts from a buffer of `bufLength` bytes. */
  ghost predicate LinesAdded(caps: Capabilities, bufLength: nat, before: seq<Write>, after: seq<Write>) {
    && before <= after
    && forall k :: |before| <= k < |after| ==>
         Acceptable(caps, bufLength, after[k]) && after[k].desc.height == 1 && !after[k].desc.frameIncomplete
  }

  lemma NoLinesAdded(caps: Capabilities, bufLength: nat, writes: seq<Write>)
    ensures LinesAdded(caps, bufLength, writes, writes)
  {
  }

  lemma LinesAddedTwice(caps: Capabilities, bufLength: nat, w0: seq<Write>, w1: seq<Write>, w2: seq<Write>)
    requires LinesAdded(caps, bufLength, w0, w1) && LinesAdded(caps, bufLength, w1, w2)
    ensures LinesAdded(caps, bufLength, w0, w2)
  {
    hide Acceptable;
  }

  /** A colour value per pixel, as the panel's format shows it. */
  function VisibleLine(format: PixelFormat, pixels: seq<Pixel>): (shown: seq<Pixel>)
    ensures |shown| == |pixels|
    ensures forall k :: 0 <= k < |pixels| ==> shown[k] == Visible(format, pixels[k])
  {
    seq(|pixels|, k requires 0 <= k < |pixels| => Visible(format, pixels[k]))
  }

  /** Row `row` of the glyph that a pixel of line `py` belongs to when the glyph starts at line `y`. */
  function GlyphLine(py: int, y: U32): U32 {
    (py - y) % U32_MOD
  }

  /** Where a glyph is placed: its descriptor, its columns on the panel and its starting line. */
  datatype Placement = Placement(c: CharInfo, x: nat, w: nat, y: U32)

  ghost predicate Placeable(font: Font, p: Placement, rows: nat) {
    Stored(font, p.c) && p.w <= p.c.width && rows <= font.height
  }

  /** A pixel after the first `rows` rows of a glyph were drawn over it. */
  function Inked(font: Font, p: Placement, rows: nat, fg: Pixel, bg: Pixel, px: int, py: int, was: Pixel): Pixel
    requires Placeable(font, p, rows)
  {
    if p.x <= px < p.x + p.w && GlyphLine(py, p.y) < rows then
      if GlyphBit(font, p.c, GlyphLine(py, p.y), px - p.x) then fg else bg
    else was
  }

  function InkRow(row: seq<Pixel>, py: int, font: Font, p: Placement, rows: nat, fg: Pixel, bg: Pixel): (r: seq<Pixel>)
    requires Placeable(font, p, rows)
    ensures |r| == |row|
    ensures forall x :: 0 <= x < |row| ==> r[x] == Inked(font, p, rows, fg, bg, x, py, row[x])
  {
    seq(|row|, x requires 0 <= x < |row| && Placeable(font, p, rows) => Inked(font, p, rows, fg, bg, x, py, row[x]))
  }

  /** The frame after the first `rows` rows of a placed glyph were drawn. */
  function PaintGlyph(f: Frame, font: Font, p: Placement, rows: nat, fg: Pixel, bg: Pixel): (g: Frame)
    requires Placeable(font, p, rows)
    ensures |g| == |f| && forall y :: 0 <= y < |f| ==> |g[y]| == |f[y]|
    ensures forall y, x :: 0 <= y < |f| && 0 <= x < |f[y]| ==> g[y][x] == Inked(font, p, rows, fg, bg, x, y, f[y][x])
  {
    seq(|f|, y requires 0 <= y < |f| && Placeable(font, p, rows) => InkRow(f[y], y, font, p, rows, fg, bg))
  }

  /** The pixel at row `i`, column `j` of a placed glyph shows the glyph's bit in the font's table. */
  lemma PaintedCell(f: Frame, font: Font, p: Placement, rows: nat, fg: Pixel, bg: Pixel, i: nat, j: nat,
                    px: nat, py: nat, k: nat)
    requires Placeable(font, p, rows) && i < rows && j < p.w
    requires px == p.x + j && py == (p.y + i) % U32_MOD && py < |f| && px < |f[py]|
    requires k == p.c.offset + (p.c.width + 7) / 8 * i + j / 8
    ensures k < |font.table|
    ensures PaintGlyph(f, font, p, rows, fg, bg)[py][px] == if font.table[k] & (0x80 >> (j % 8)) != 0 then fg else bg
  {
    hide GlyphBit, Stored;
    LineOfRow(p.y, i);
    GlyphBitIs(font, p.c, i, j, k);
  }

  lemma LineOfRow(y: U32, i: nat)
    requires i < U8_MOD
    ensures GlyphLine((y + i) % U32_MOD, y) == i
  {
  }

  /** Line `i` of a glyph starting at `y` is the panel line `(y + i) mod 2^32`. */
  lemma GlyphLineIs(py: int, y: U32, i: nat)
    requires 0 <= py < U16_MOD && i < U8_MOD
    ensures GlyphLine(py, y) == i <==> py == Add32(y, i)
  {
  }

  /** Clipping one line draws it when it is on the panel, and nothing at all otherwise. */
  lemma ClipOneLine(xsize: U16, ysize: U16, x: U32, y: U32, w: U32)
    requires xsize >= 1
    ensures var a := Clip(xsize, ysize, x, y, w, 1); if y < ysize then a.y == y && a.h == 1 else a.h == 0
  {
  }

  lemma ClipSameColumns(xsize: U16, ysize: U16, x: U32, y: U32, y': U32, w: U32)
    requires xsize >= 1
    ensures Clip(xsize, ysize, x, y, w, 1).x == Clip(xsize, ysize, x, y', w, 1).x
    ensures Clip(xsize, ysize, x, y, w, 1).w == Clip(xsize, ysize, x, y', w, 1).w
  {
  }

  /** Drawing row `i` as a one-line image on top of the first `i` rows draws the first `i + 1` rows. */
  lemma PaintGlyphNextRow(f: Frame, xsize: U16, ysize: U16, font: Font, p: Placement, i: nat, fg: Pixel, bg: Pixel,
                          a: Rect, row: Source)
    requires Sized(f, xsize, ysize) && Placeable(font, p, i + 1)
    requires if Add32(p.y, i) < ysize then a == Rect(p.x, Add32(p.y, i), p.w, 1) else a.h == 0
    requires forall j :: 0 <= j < p.w ==> Shade(row, j, 0) == if GlyphBit(font, p.c, i, j) then fg else bg
    ensures Paint(PaintGlyph(f, font, p, i, fg, bg), a, row) == PaintGlyph(f, font, p, i + 1, fg, bg)
  {
    var before, after := PaintGlyph(f, font, p, i, fg, bg), PaintGlyph(f, font, p, i + 1, fg, bg);
    var painted := Paint(before, a, row);
    forall y, x | 0 <= y < |painted| && 0 <= x < |painted[y]| ensures painted[y][x] == after[y][x] {
      GlyphLineIs(y, p.y, i);
    }
    FramesEqual(painted, after);
  }
}
