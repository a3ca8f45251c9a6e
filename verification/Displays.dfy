/** The display wrapper: initialisation, rectangles, icons, glyphs and strings. */
module Displays {
  import opened Words
  import opened Pixels
  import opened Frames
  import opened Panels
  import opened Fonts
  import opened Options
  import opened Drawing
  import opened TextLayout

  datatype Color = Black | White | Blue | Green

  datatype Status = Ok | Nodev | Nosys | Nomem

  function Max(a: nat, b: nat): (m: nat)
    ensures m >= a && m >= b && (m == a || m == b)
  {
    if a > b then a else b
  }

  /** Lines per write. */
  const H_STEP: U32 := 1

  function ColorValue(format: PixelFormat, color: Color): Pixel {
    if format.ARGB8888? then
      match color
      case Black => 0xFF00_0000
      case White => 0xFFFF_FFFF
      case Blue => 0xFF00_00FF
      case Green => 0xFF00_FF00
    else if format.RGB888? then
      match color
      case Black => 0x00_0000
      case White => 0xFF_FFFF
      case Blue => 0x00_00FF
      case Green => 0x00_FF00
    else 0
  }

  /** What the panel shows for a colour. */
  function Shown(format: PixelFormat, color: Color): Pixel {
    Visible(format, ColorValue(format, color))
  }

  /**
   * What a colour looks like in either format: which of blue, green and red are full, the others being dark,
   * and that it is opaque.
   */
  lemma ColorChannels(format: PixelFormat, color: Color)
    requires Supported(format)
    ensures Shown(format, color) & 0xFF == if color.White? || color.Blue? then 0xFF else 0
    ensures (Shown(format, color) >> 8) & 0xFF == if color.White? || color.Green? then 0xFF else 0
    ensures (Shown(format, color) >> 16) & 0xFF == if color.White? then 0xFF else 0
    ensures Shown(format, color) >> 24 == if format.ARGB8888? then 0xFF else 0
  {
  }

  /** The bytes stored for a colour: blue, green, red, and in ARGB8888 an opaque alpha. */
  lemma ColorBytes(format: PixelFormat, color: Color)
    requires Supported(format)
    ensures var bytes := Encode(format, ColorValue(format, color));
            && bytes[0] == (if color.White? || color.Blue? then 0xFF else 0)
            && bytes[1] == (if color.White? || color.Green? then 0xFF else 0)
            && bytes[2] == (if color.White? then 0xFF else 0)
            && (format.ARGB8888? ==> bytes[3] == 0xFF)
  {
  }

  /** Both formats show the same colour in the 24 bits that they share. */
  lemma FormatsAgree(color: Color)
    ensures Shown(ARGB8888, color) & 0xFF_FFFF == Shown(RGB888, color) & 0xFF_FFFF
  {
  }

  class Display {
    var panel: Panel?
    var format: PixelFormat            // of the reported capabilities
    var xsize: U32
    var ysize: U32
    var lineBufferSize: nat
    var backgroundValue: Pixel
    var lineBuffer: array?<Byte>
    var font: Option<Font>
    var routines: PixelFormat          // which pair of fill routines is installed
    const charIsSigned: bool           // of the platform's plain char

    /** The state that a successful initialisation establishes and every drawing call keeps. */
    ghost predicate Ready()
      reads this, panel
    {
      && panel != null && panel.Valid() && lineBuffer != null
      && format == routines == panel.caps.format && Supported(format)
      && xsize == panel.caps.Width() && ysize == panel.caps.Height()
      && lineBufferSize == lineBuffer.Length == LongestSide() * BytesPerPixel(format)
    }

    function LongestSide(): nat
      reads this
    {
      if xsize > ysize then xsize else ysize
    }

    constructor (charIsSigned: bool)
      ensures panel == null && lineBuffer == null && font == None
      ensures format == RGB888 && routines == Unsupported && backgroundValue == 0
      ensures this.charIsSigned == charIsSigned
    {
      panel, format, xsize, ysize, lineBufferSize := null, RGB888, 0, 0, 0;
      backgroundValue, lineBuffer, font, routines := 0, null, None, Unsupported;
      this.charIsSigned := charIsSigned;
    }

    /** The wrapper follows the orientation that the driver reports. */
    method AdaptTo(caps: Capabilities)
      modifies this`format, this`xsize, this`ysize
      ensures format == caps.format && xsize == caps.Width() && ysize == caps.Height()
      ensures caps.orientation.Normal? || caps.orientation.Rotated180? ==>
                xsize == caps.xResolution && ysize == caps.yResolution
      ensures caps.orientation.Rotated90? || caps.orientation.Rotated270? ==>
                xsize == caps.yResolution && ysize == caps.xResolution
    {
      format := caps.format;
      if caps.orientation.Rotated90? || caps.orientation.Rotated270? {
        xsize, ysize := caps.yResolution, caps.xResolution;
      } else {
        xsize, ysize := caps.xResolution, caps.yResolution;
      }
    }

    /** `heapFree` is the largest block that the driver's heap can still hand out. */
    method Initialize(device: Panel, isReady: bool, heapFree: nat) returns (status: Status)
      requires device.Valid()
      modifies this
      ensures font == old(font) && backgroundValue == old(backgroundValue)
      ensures status == Nodev <==> !isReady
      ensures status == Nosys <==> isReady && !Supported(device.caps.format)
      ensures status == Ok ==> Ready() && panel == device && fresh(lineBuffer)
      ensures isReady && (device.caps.orientation.Normal? || device.caps.orientation.Rotated180?) ==>
                xsize == device.caps.xResolution && ysize == device.caps.yResolution
      ensures isReady && (device.caps.orientation.Rotated90? || device.caps.orientation.Rotated270?) ==>
                xsize == device.caps.yResolution && ysize == device.caps.xResolution
      ensures isReady && device.caps.format.ARGB8888? ==>
                lineBufferSize == Max(device.caps.xResolution, device.caps.yResolution) * 4
      ensures isReady && device.caps.format.RGB888? ==>
                lineBufferSize == Max(device.caps.xResolution, device.caps.yResolution) * 3
      ensures isReady && Supported(device.caps.format) ==>
                (status == Ok <==> lineBufferSize <= heapFree)
                && lineBufferSize == LongestSide() * BytesPerPixel(device.caps.format)
    {
      hide Sized, Capabilities.Swapped;
      panel := device;
      if !isReady {
        return Nodev;
      }
      AdaptTo(device.caps);
      lineBufferSize := if xsize > ysize then xsize else ysize;
      match format {
        case ARGB8888 =>
          routines := ARGB8888;
          lineBufferSize := lineBufferSize * 4;
        case RGB888 =>
          routines := RGB888;
          lineBufferSize := lineBufferSize * 3;
        case Unsupported =>
          return Nosys;
      }
      if heapFree < lineBufferSize {
        lineBuffer := null;
        return Nomem;
      }
      lineBuffer := new Byte[lineBufferSize];
      return Ok;
    }

    /** The installed routine that fills the whole line buffer with one colour. */
    method FillColor(value: Pixel)
      requires Ready()
      modifies lineBuffer
      ensures EncodeLine(format, Repeat(value, LongestSide())) <= lineBuffer[..]
    {
      hide Encode, EncodeLine;
      WholePixels(LongestSide(), BytesPerPixel(format));
      if routines.ARGB8888? {
        FillColorArgb8888(value, lineBuffer, lineBufferSize);
      } else {
        FillColorRgb888(value, lineBuffer, lineBufferSize);
      }
    }

    /** The installed routine that encodes `size` pixels of `src` at the start of the line buffer. */
    method FillLine(src: seq<Pixel>, size: nat)
      requires Ready() && size <= |src| && size <= xsize
      modifies lineBuffer
      ensures EncodeLine(format, src[..size]) <= lineBuffer[..]
    {
      hide Encode, EncodeLine;
      if routines.ARGB8888? {
        FillLineArgb8888(src, size, lineBuffer);
      } else {
        FillLineRgb888(src, size, lineBuffer);
      }
    }

    method SetBackgroundColor(color: Color)
      modifies this`backgroundValue
      ensures backgroundValue == ColorValue(format, color)
    {
      backgroundValue := ColorValue(format, color);
    }

    /** The frame and the log after the first `k` lines of rectangle `a` were drawn from `s`. */
    ghost predicate Progress(f0: Frame, w0: seq<Write>, a: Rect, s: Source, k: nat)
      requires panel != null && a.x >= 0 && a.y >= 0 && a.w >= 0 && 0 <= k <= a.h
      reads this, panel
    {
      && panel.frame == Paint(f0, Rect(a.x, a.y, a.w, k), s)
      && panel.writes == w0 + LineWrites(a, format)[..k]
    }

    lemma Started(a: Rect, s: Source)
      requires panel != null && a.x >= 0 && a.y >= 0 && a.w >= 0 && a.h >= 0
      ensures Progress(panel.frame, panel.writes, a, s, 0)
    {
      PaintNothing(panel.frame, Rect(a.x, a.y, a.w, 0), s);
    }

    lemma Finished(f0: Frame, w0: seq<Write>, a: Rect, s: Source)
      requires panel != null && a.x >= 0 && a.y >= 0 && a.w >= 0 && a.h >= 0
      requires Progress(f0, w0, a, s, a.h)
      ensures panel.frame == Paint(f0, a, s) && panel.writes == w0 + LineWrites(a, format)
    {
    }

    /** The descriptor of a one-line write; more lines follow unless it is the last. */
    method LineDescriptor(width: nat, line: nat, lastLine: nat) returns (desc: Descriptor)
      requires line < lastLine < U16_MOD
      ensures desc == Descriptor(width * BytesPerPixel(format), width, 1, width, line + 1 < lastLine)
    {
      var bytesPerPixel := if format.ARGB8888? then 4 else 3;
      var lineHeight: nat := Min16(H_STEP, lastLine - line);
      desc := Descriptor(width * lineHeight * bytesPerPixel, width, lineHeight, width, line + lineHeight < lastLine);
    }

    /** Every line of a rectangle on the panel is a write that the device accepts. */
    lemma LineFits(a: Rect, k: nat)
      requires Ready() && 0 <= a.x && 0 <= a.y && 0 <= a.w && a.x + a.w <= xsize && k < a.h && a.y + a.h <= ysize
      ensures Acceptable(panel.caps, lineBuffer.Length, LineWrites(a, format)[k])
    {
      MulLe(BytesPerPixel(format), a.w, LongestSide());
    }

    /** Sends line `k` of `a` from a buffer that starts with the encoding of `pixels`. */
    method SendLine(ghost f0: Frame, ghost w0: seq<Write>, ghost a: Rect, ghost s: Source, ghost k: nat,
                    ghost pixels: seq<Pixel>, x: nat, line: nat, desc: Descriptor)
      requires Ready() && 0 <= a.x && 0 <= a.y && 0 <= a.w && a.x + a.w <= xsize && k < a.h && a.y + a.h <= ysize
      requires Write(x, line, desc) == LineWrites(a, format)[k]
      requires a.w <= |pixels| && EncodeLine(format, pixels) <= lineBuffer[..]
      requires forall c :: 0 <= c < a.w ==> Shade(s, c, k) == Visible(format, pixels[c])
      requires Progress(f0, w0, a, s, k)
      modifies panel
      ensures Ready()
      ensures Progress(f0, w0, a, s, k + 1)
    {
      hide Visible, Encode, EncodeLine;
      ghost var row := Image(DecodedPixels(format, lineBuffer[..], a.w), a.w);
      LineFits(a, k);
      DecodedLine(format, lineBuffer[..], pixels, a.w);
      panel.DisplayWrite(x, line, desc, lineBuffer);
      PaintNextRow(f0, a.x, a.y, a.w, k, s, row);
    }

    /** Encodes and sends line `k` of `a`: row `k` of the image `src`, which starts at pixel `p`. */
    method SendImageLine(ghost f0: Frame, ghost w0: seq<Write>, ghost a: Rect, ghost k: nat, src: seq<Pixel>,
                         ghost stride: nat, ghost height: nat, p: nat, x: nat, w: nat, line: nat, lastLine: nat)
      requires Ready() && a == Rect(x, line - k, w, lastLine - line + k) && k <= line < lastLine <= ysize
      requires x + w <= xsize && w <= stride && k < height && p == k * stride && |src| >= stride * height
      requires Progress(f0, w0, a, Image(VisibleLine(format, src), stride), k)
      modifies panel, lineBuffer
      ensures Ready()
      ensures Progress(f0, w0, a, Image(VisibleLine(format, src), stride), k + 1)
      ensures p + stride == (k + 1) * stride
    {
      hide Visible, EncodeLine;
      ghost var s := Image(VisibleLine(format, src), stride);
      ImageRow(format, src, stride, height, k, p, w);
      FillLine(src[p..], w);
      var desc := LineDescriptor(w, line, lastLine);
      SendLine(f0, w0, a, s, k, src[p..][..w], x, line, desc);
    }

    /** Sends line `k` of `a` from a buffer that holds `copies` of one colour value. */
    method SendSolidLine(ghost f0: Frame, ghost w0: seq<Write>, ghost a: Rect, ghost k: nat, ghost value: Pixel,
                         ghost copies: nat, x: nat, w: nat, line: nat, lastLine: nat)
      requires Ready() && a == Rect(x, line - k, w, lastLine - line + k) && k <= line < lastLine <= ysize
      requires x + w <= xsize && w <= copies && EncodeLine(format, Repeat(value, copies)) <= lineBuffer[..]
      requires Progress(f0, w0, a, Solid(Visible(format, value)), k)
      modifies panel
      ensures Ready()
      ensures Progress(f0, w0, a, Solid(Visible(format, value)), k + 1)
    {
      hide Visible, EncodeLine;
      var desc := LineDescriptor(w, line, lastLine);
      SendLine(f0, w0, a, Solid(Visible(format, value)), k, Repeat(value, copies), x, line, desc);
    }

    /** The lines of a rectangle, each sent from a line buffer filled with one colour value. */
    method FillSolid(value: Pixel, xPos: U32, yPos: U32, width: U32, height: U32)
      requires Ready()
      modifies panel, lineBuffer
      ensures Ready()
      ensures panel.frame == Paint(old(panel.frame), Clip(xsize, ysize, xPos, yPos, width, height),
                                   Solid(Visible(format, value)))
      ensures panel.writes == old(panel.writes) + LineWrites(Clip(xsize, ysize, xPos, yPos, width, height), format)
    {
      hide Visible, EncodeLine, Paint, LineWrites;
      FillColor(value);
      ghost var a := Clip(xsize, ysize, xPos, yPos, width, height);
      ghost var s := Solid(Visible(format, value));

      var x: nat := Min16(xsize - 1, xPos);
      var w: nat := Min16(xsize - x, width);
      var firstLine: nat := Min16(yPos, ysize);
      var lastLine: nat := Min16(Add32(yPos, height), ysize);
      ghost var f0, w0 := panel.frame, panel.writes;
      Started(a, s);
      var line: nat := firstLine;
      ghost var k := 0;
      while line < lastLine
        invariant line == firstLine + k && k <= a.h
        invariant Ready() && EncodeLine(format, Repeat(value, LongestSide())) <= lineBuffer[..]
        invariant Progress(f0, w0, a, s, k)
      {
        SendSolidLine(f0, w0, a, k, value, LongestSide(), x, w, line, lastLine);
        line := line + H_STEP;
        k := k + 1;
      }
      Finished(f0, w0, a, s);
    }

    method FillRectangle(color: Color, xPos: U32, yPos: U32, width: U32, height: U32)
      requires Ready()
      modifies panel, lineBuffer
      ensures Ready()
      ensures panel.frame == Paint(old(panel.frame), Clip(xsize, ysize, xPos, yPos, width, height),
                                   Solid(Shown(format, color)))
      ensures panel.writes == old(panel.writes) + LineWrites(Clip(xsize, ysize, xPos, yPos, width, height), format)
    {
      hide Visible, ColorValue, Paint, LineWrites, Clip;
      FillSolid(ColorValue(format, color), xPos, yPos, width, height);
    }

    method FillDisplay(color: Color)
      requires Ready()
      modifies panel, lineBuffer
      ensures Ready()
      ensures forall y, x :: 0 <= y < ysize && 0 <= x < xsize ==> panel.frame[y][x] == Shown(format, color)
      ensures forall y, x :: 0 <= y < ysize && 0 <= x < xsize ==>
                && panel.frame[y][x] & 0xFF == (if color.White? || color.Blue? then 0xFF else 0)
                && (panel.frame[y][x] >> 8) & 0xFF == (if color.White? || color.Green? then 0xFF else 0)
                && (panel.frame[y][x] >> 16) & 0xFF == (if color.White? then 0xFF else 0)
                && panel.frame[y][x] >> 24 == (if format.ARGB8888? then 0xFF else 0)
      ensures panel.writes == old(panel.writes) + LineWrites(Rect(0, 0, xsize, ysize), format)
    {
      hide Shown;
      FillRectangle(color, 0, 0, xsize, ysize);
      ColorChannels(format, color);
    }

    method DrawVerticalLine(color: Color, xPos: U32, yPos: U32, lineLength: U32, thickness: U32)
      requires Ready()
      modifies panel, lineBuffer
      ensures Ready()
      ensures panel.frame == Paint(old(panel.frame), Clip(xsize, ysize, xPos, yPos, thickness, lineLength),
                                   Solid(Shown(format, color)))
      ensures panel.writes == old(panel.writes)
                              + LineWrites(Clip(xsize, ysize, xPos, yPos, thickness, lineLength), format)
    {
      FillRectangle(color, xPos, yPos, thickness, lineLength);
    }

    method DrawHorizontalLine(color: Color, xPos: U32, yPos: U32, lineLength: U32, thickness: U32)
      requires Ready()
      modifies panel, lineBuffer
      ensures Ready()
      ensures panel.frame == Paint(old(panel.frame), Clip(xsize, ysize, xPos, yPos, lineLength, thickness),
                                   Solid(Shown(format, color)))
      ensures panel.writes == old(panel.writes)
                              + LineWrites(Clip(xsize, ysize, xPos, yPos, lineLength, thickness), format)
    {
      FillRectangle(color, xPos, yPos, lineLength, thickness);
    }

    method DrawIcon(xPos: U16, yPos: U16, src: seq<Pixel>, logoWidth: U16, logoHeight: U16)
      requires Ready() && |src| >= logoWidth * logoHeight
      modifies panel, lineBuffer
      ensures Ready()
      ensures panel.frame == Paint(old(panel.frame), Clip(xsize, ysize, xPos, yPos, logoWidth, logoHeight),
                                   Image(VisibleLine(format, src), logoWidth))
      ensures panel.writes == old(panel.writes)
                              + LineWrites(Clip(xsize, ysize, xPos, yPos, logoWidth, logoHeight), format)
    {
      hide Visible, EncodeLine, Paint, LineWrites;
      ghost var a := Clip(xsize, ysize, xPos, yPos, logoWidth, logoHeight);
      ghost var s := Image(VisibleLine(format, src), logoWidth);
      var x: nat := Min16(xsize - 1, xPos);
      var w: nat := Min16(xsize - x, logoWidth);
      var firstLine: nat := Min16(yPos, ysize);
      var lastLine: nat := Min16(yPos + logoHeight, ysize);
      ghost var f0, w0 := panel.frame, panel.writes;
      Started(a, s);
      var line: nat := firstLine;
      ghost var k := 0;
      var p: nat := 0;
      while line < lastLine
        invariant line == firstLine + k && k <= a.h
        invariant Ready()
        invariant p == k * logoWidth
        invariant Progress(f0, w0, a, s, k)
      {
        SendImageLine(f0, w0, a, k, src, logoWidth, logoHeight, p, x, w, line, lastLine);
        p := p + logoWidth;
        line := line + H_STEP;
        k := k + 1;
      }
      Finished(f0, w0, a, s);
    }

    method FillRgbRect(xPos: U32, yPos: U32, data: seq<Pixel>, width: U32, height: U32)
      requires Ready() && |data| >= width * height
      modifies panel, lineBuffer
      ensures Ready()
      ensures panel.frame == Paint(old(panel.frame), Clip(xsize, ysize, xPos, yPos, width, height),
                                   Image(VisibleLine(format, data), width))
      ensures panel.writes == old(panel.writes) + LineWrites(Clip(xsize, ysize, xPos, yPos, width, height), format)
    {
      hide Visible, EncodeLine, Paint, LineWrites;
      ghost var a := Clip(xsize, ysize, xPos, yPos, width, height);
      ghost var s := Image(VisibleLine(format, data), width);
      var x: nat := Min16(xsize - 1, xPos);
      var w: nat := Min16(xsize - x, width);
      var firstLine: nat := Min16(yPos, ysize);
      var lastLine: nat := Min16(Add32(yPos, height), ysize);
      ghost var f0, w0 := panel.frame, panel.writes;
      Started(a, s);
      var line: nat := firstLine;
      ghost var k := 0;
      var p: nat := 0;
      while line < lastLine
        invariant line == firstLine + k && k <= a.h
        invariant Ready()
        invariant p == k * width
        invariant Progress(f0, w0, a, s, k)
      {
        SendImageLine(f0, w0, a, k, data, width, height, p, x, w, line, lastLine);
        p := p + width;
        line := line + H_STEP;
        k := k + 1;
      }
      Finished(f0, w0, a, s);
    }

    /** A rectangle of at most one line adds at most one write to the log, and it is complete. */
    lemma OneLineSent(w0: seq<Write>, w1: seq<Write>, a: Rect)
      requires Ready() && 0 <= a.x && 0 <= a.y && 0 <= a.w && a.x + a.w <= xsize && 0 <= a.h <= 1 && a.y + a.h <= ysize
      requires LinesAdded(panel.caps, lineBufferSize, w0, w1)
      ensures LinesAdded(panel.caps, lineBufferSize, w0, w1 + LineWrites(a, format))
    {
      hide Acceptable;
      if a.h == 1 {
        LineFits(a, 0);
      }
    }

    method SetFont(newFont: Font)
      modifies this`font
      ensures font == Some(newFont)
    {
      font := Some(newFont);
    }

    method GetStringWidth(text: Text) returns (width: U16)
      requires font.Some?
      ensures width == MeasuredWidth(font.value, text, charIsSigned)
    {
      width := 0;
      for i := 0 to |text|
        invariant width == MeasuredWidth(font.value, text[..i], charIsSigned)
      {
        var w := GetCharWidth(font.value, Widen(text[i], charIsSigned));
        width := (width + w) % U16_MOD;
        assert text[..i + 1][..i] == text[..i];
      }
      assert text[..|text|] == text;
    }

    method DisplayChar(color: Color, xPos: U32, yPos: U32, unicode: U32)
      requires Ready() && font.Some? && Drawable(font.value, unicode)
      modifies panel, lineBuffer
      ensures Ready()
      ensures match Lookup(font.value.chars, unicode)
              case None => panel.frame == old(panel.frame)
              case Some(c) =>
                Placeable(font.value, PlacedChar(c, xPos, yPos), font.value.height)
                && panel.frame == PaintGlyph(old(panel.frame), font.value, PlacedChar(c, xPos, yPos), font.value.height,
                                             Shown(format, color), Visible(format, backgroundValue))
      ensures LinesAdded(panel.caps, lineBufferSize, old(panel.writes), panel.writes)
    {
      hide Visible, ColorValue, PaintGlyph, LinesAdded, Encode, EncodeLine, GlyphBit, Min16, Decode;
      NoLinesAdded(panel.caps, lineBufferSize, panel.writes);
      var glyph := FontGetGlyph(font.value, unicode);
      if glyph.None? {
        return;
      }
      var (p, charWidth) := glyph.value;
      ghost var c := Lookup(font.value.chars, unicode).value;
      ghost var place := PlacedChar(c, xPos, yPos);
      ghost var fg, bg := Shown(format, color), Visible(format, backgroundValue);
      ghost var f0 := panel.frame;
      var bytesPerLine := RowBytes(charWidth);
      var offset := 8 * bytesPerLine - charWidth;
      var y := yPos;
      NoRowsInked(f0, font.value, place, fg, bg);
      for i := 0 to font.value.height
        invariant Ready() && y == Add32(yPos, i)
        invariant panel.frame == PaintGlyph(f0, font.value, place, i, fg, bg)
        invariant LinesAdded(panel.caps, lineBufferSize, old(panel.writes), panel.writes)
      {
        DrawGlyphRow(f0, old(panel.writes), c, i, yPos, color, xPos, y,
                     p + bytesPerLine * i, bytesPerLine, charWidth, offset);
        Add32Next(yPos, i);
        y := Add32(y, 1);
      }
    }

    /** Unpacks row `i` of a glyph from the table and draws it as a one-line rectangle. */
    method DrawGlyphRow(ghost f0: Frame, ghost w0: seq<Write>, ghost c: CharInfo, ghost i: nat, ghost yPos: U32,
                        color: Color, xPos: U32, y: U32, at: nat, bytesPerLine: nat, charWidth: U8, offset: nat)
      requires Ready() && font.Some? && Stored(font.value, c) && i < font.value.height
      requires Sized(f0, xsize, ysize)
      requires charWidth == c.width && bytesPerLine == RowBytes(charWidth) && offset == 8 * bytesPerLine - charWidth
      requires at == c.offset + bytesPerLine * i && y == Add32(yPos, i)
      requires panel.frame == PaintGlyph(f0, font.value, PlacedChar(c, xPos, yPos), i,
                                         Shown(format, color), Visible(format, backgroundValue))
      requires LinesAdded(panel.caps, lineBufferSize, w0, panel.writes)
      modifies panel, lineBuffer
      ensures Ready()
      ensures panel.frame == PaintGlyph(f0, font.value, PlacedChar(c, xPos, yPos), i + 1,
                                        Shown(format, color), Visible(format, backgroundValue))
      ensures LinesAdded(panel.caps, lineBufferSize, w0, panel.writes)
    {
      hide Visible, ColorValue, Paint, PaintGlyph, GlyphBit, Clip, LinesAdded, LineWrites, Encode, EncodeLine;
      ghost var w1 := panel.writes;
      var pixels := UnpackRow(font.value, c, i, at, bytesPerLine, charWidth, offset,
                              ColorValue(format, color), backgroundValue);
      FillRgbRect(xPos, y, pixels[..], charWidth, 1);
      ghost var a := Clip(xsize, ysize, xPos, y, charWidth, 1);
      ClipOneLine(xsize, ysize, xPos, y, charWidth);
      ClipSameColumns(xsize, ysize, xPos, y, yPos, charWidth);
      OneLineSent(w0, w1, a);
      PaintGlyphNextRow(f0, xsize, ysize, font.value, PlacedChar(c, xPos, yPos), i, Shown(format, color),
                        Visible(format, backgroundValue), a, Image(VisibleLine(format, pixels[..]), charWidth));
    }

    /** A glyph's columns are clipped like those of any other rectangle. */
    function PlacedChar(c: CharInfo, xPos: U32, yPos: U32): Placement
      requires 1 <= xsize < U16_MOD && ysize < U16_MOD
      reads this
    {
      var a := Clip(xsize, ysize, xPos, yPos, c.width, 1);
      Placement(c, a.x, a.w, yPos)
    }

    /** The panel shows `f0` with a text drawn over it. */
    ghost predicate TextDrawn(f0: Frame, color: Color, start: nat, yPos: U32, text: Text)
      requires panel != null && font.Some? && TextDrawable(font.value, text)
      reads this, panel
    {
      panel.frame == DrawText(f0, font.value, start, yPos, text, Shown(format, color), Visible(format, backgroundValue))
    }

    /** Draws character `i` of a text of which the characters before it are drawn. */
    method DrawNextChar(ghost f0: Frame, ghost start: nat, i: nat, color: Color, xPos: U32, yPos: U32, text: Text)
      requires Ready() && font.Some? && i < |text| && TextDrawable(font.value, text[..i + 1])
      requires 1 <= xPos == start + TextWidth(font.value, text[..i]) && xPos + CharWidth(font.value, text[i]) <= xsize
      requires TextDrawn(f0, color, start, yPos, text[..i])
      modifies panel, lineBuffer
      ensures Ready()
      ensures TextDrawn(f0, color, start, yPos, text[..i + 1])
      ensures LinesAdded(panel.caps, lineBufferSize, old(panel.writes), panel.writes)
    {
      hide Visible, ColorValue, PaintGlyph, LinesAdded;
      ghost var before := panel.frame;
      DisplayChar(color, xPos, yPos, text[i]);
      if Lookup(font.value.chars, text[i]).Some? {
        UnclippedChar(before, font.value, xsize, ysize, xPos, yPos, text[i],
                      Shown(format, color), Visible(format, backgroundValue));
      }
      assert text[..i + 1][..i] == text[..i];
    }

    method DrawStringAt(color: Color, xPos: U32, yPos: U32, text: Text)
      requires Ready() && font.Some?
      requires TextDrawable(font.value, text[..DrawnCount(font.value, StartColumn(xPos), text, xsize)])
      modifies panel, lineBuffer
      ensures Ready()
      ensures panel.frame == DrawText(old(panel.frame), font.value, StartColumn(xPos), yPos,
                                      text[..DrawnCount(font.value, StartColumn(xPos), text, xsize)],
                                      Shown(format, color), Visible(format, backgroundValue))
      ensures LinesAdded(panel.caps, lineBufferSize, old(panel.writes), panel.writes)
    {
      hide Visible, ColorValue, DrawText, DrawnCount, TextWidth, LinesAdded, TextDrawable;
      NoLinesAdded(panel.caps, lineBufferSize, panel.writes);
      var refColumn := xPos;
      if refColumn < 1 || refColumn >= 0x8000 {
        refColumn := 1;
      }
      ghost var start, f0 := refColumn, panel.frame;
      ghost var n := DrawnCount(font.value, start, text, xsize);
      var totalWidth := refColumn;
      assert text[0..] == text;
      PrefixDrawable(font.value, text, 0, n);
      NothingDrawn(f0, font.value, start, yPos, text, Shown(format, color), Visible(format, backgroundValue));
      var i := 0;
      while i < |text|
        invariant Ready() && i <= |text| && totalWidth == refColumn == start + TextWidth(font.value, text[..i])
        invariant 1 <= refColumn && (refColumn <= xsize || refColumn < 0x8000)
        invariant TextDrawable(font.value, text[..i])
        invariant TextDrawn(f0, color, start, yPos, text[..i])
        invariant LinesAdded(panel.caps, lineBufferSize, old(panel.writes), panel.writes)
        invariant n == i + DrawnCount(font.value, refColumn, text[i..], xsize)
      {
        var charWidth := GetCharWidth(font.value, text[i]);
        TextWidthExtend(font.value, text, i);
        DrawnCountStep(font.value, refColumn, text, i, xsize);
        Add32Exact(totalWidth, charWidth);
        totalWidth := Add32(totalWidth, charWidth);
        if totalWidth > xsize {
          break;
        }
        PrefixDrawable(font.value, text, i + 1, n);
        ghost var w1 := panel.writes;
        DrawNextChar(f0, start, i, color, refColumn, yPos, text);
        LinesAddedTwice(panel.caps, lineBufferSize, old(panel.writes), w1, panel.writes);
        refColumn := refColumn + charWidth;
        i := i + 1;
      }
      assert i == n;
    }

    method DrawStringAtLine(color: Color, line: U32, text: Text, mode: AlignMode)
      requires Ready() && font.Some?
      requires var start := AlignedStart(font.value, text, mode, xsize, charIsSigned);
               TextDrawable(font.value, text[..DrawnCount(font.value, start, text, xsize)])
      modifies panel, lineBuffer
      ensures Ready()
      ensures var start := AlignedStart(font.value, text, mode, xsize, charIsSigned);
              panel.frame == DrawText(old(panel.frame), font.value, start, (line * font.value.height) % U32_MOD,
                                      text[..DrawnCount(font.value, start, text, xsize)],
                                      Shown(format, color), Visible(format, backgroundValue))
      ensures LinesAdded(panel.caps, lineBufferSize, old(panel.writes), panel.writes)
    {
      hide Visible, ColorValue, DrawText, DrawnCount, MeasuredWidth, LinesAdded;
      var measured := GetStringWidth(text);
      var xPos: U32 := 0;
      match mode {
        case Center => xPos := Sub32(xsize / 2, measured / 2);
        case Left => xPos := 0;
        case Right => xPos := Sub32(xsize, measured);
      }
      DrawStringAt(color, xPos, (line * font.value.height) % U32_MOD, text);
    }
  }

  lemma NoRowsInked(f: Frame, font: Font, p: Placement, fg: Pixel, bg: Pixel)
    requires Placeable(font, p, 0)
    ensures PaintGlyph(f, font, p, 0, fg, bg) == f
  {
    FramesEqual(PaintGlyph(f, font, p, 0, fg, bg), f);
  }

  /** A character that ends on the panel is not clipped, so its placement is the column it was given. */
  lemma UnclippedChar(f: Frame, font: Font, xsize: U16, ysize: U16, x: U32, y: U32, unicode: U32, fg: Pixel, bg: Pixel)
    requires Drawable(font, unicode) && 1 <= xsize && 1 <= x && x + CharWidth(font, unicode) <= xsize
    requires Lookup(font.chars, unicode).Some?
    ensures var c := Lookup(font.chars, unicode).value;
            var a := Clip(xsize, ysize, x, y, c.width, 1);
            Stored(font, c)
            && PaintGlyph(f, font, Placement(c, a.x, a.w, y), font.height, fg, bg)
               == PaintGlyph(f, font, Placement(c, x, c.width, y), font.height, fg, bg)
  {
    var c := Lookup(font.chars, unicode).value;
    var a := Clip(xsize, ysize, x, y, c.width, 1);
    FramesEqual(PaintGlyph(f, font, Placement(c, a.x, a.w, y), font.height, fg, bg),
                PaintGlyph(f, font, Placement(c, x, c.width, y), font.height, fg, bg));
  }

  /** What the panel decodes from a buffer that starts with an encoded line. */
  lemma DecodedLine(format: PixelFormat, bytes: seq<Byte>, pixels: seq<Pixel>, n: nat)
    requires n <= |pixels| && EncodeLine(format, pixels) <= bytes && BytesPerPixel(format) * n <= |bytes|
    ensures forall c :: 0 <= c < n ==> DecodedPixels(format, bytes, n)[c] == Visible(format, pixels[c])
  {
    forall c | 0 <= c < n ensures DecodedPixels(format, bytes, n)[c] == Visible(format, pixels[c]) {
      EncodedPrefixPixel(format, bytes, pixels, c);
    }
  }

  /** Row `k` of an image lies inside it, `k * stride` pixels from its start; row `k + 1` follows. */
  lemma ImageRow(format: PixelFormat, src: seq<Pixel>, stride: nat, height: nat, k: nat, p: nat, w: nat)
    requires k < height && |src| >= stride * height && p == k * stride && w <= stride
    ensures p + stride <= |src| && p + stride == (k + 1) * stride
    ensures forall c :: 0 <= c < w ==>
              Shade(Image(VisibleLine(format, src), stride), c, k) == Visible(format, src[p..][..w][c])
  {
    MulLess(stride, k, height);
  }
}
