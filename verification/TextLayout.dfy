/** Where the characters of a string land on the panel, and which of them are drawn. */
module TextLayout {
  import opened Words
  import opened Pixels
  import opened Frames
  import opened Fonts
  import opened Options
  import opened Drawing

  /** The bytes of a std::string. */
  type Text = seq<U8>

  datatype AlignMode = Center | Right | Left

  /** Width in pixels of the glyphs of a string; characters missing from the font take none. */
  function TextWidth(font: Font, text: Text): nat {
    if text == [] then 0
    else TextWidth(font, text[..|text| - 1]) + CharWidth(font, text[|text| - 1])
  }

  lemma TextWidthExtend(font: Font, text: Text, k: nat)
    requires k < |text|
    ensures TextWidth(font, text[..k + 1]) == TextWidth(font, text[..k]) + CharWidth(font, text[k])
  {
    assert text[..k + 1][..k] == text[..k];
  }

  lemma {:induction false} PrefixWidth(font: Font, text: Text, j: nat, k: nat)
    requires j <= k <= |text|
    ensures TextWidth(font, text[..j]) <= TextWidth(font, text[..k])
    decreases k
  {
    if j < k {
      PrefixWidth(font, text, j, k - 1);
      TextWidthExtend(font, text, k - 1);
    }
  }

  /** Columns below 1 and from 0x8000 on are replaced by column 1. */
  function StartColumn(x: U32): (start: U32)
    ensures 1 <= start < 0x8000
  {
    if x < 1 || x >= 0x8000 then 1 else x
  }

  /** The text is drawn up to the first character whose right edge would leave the panel. */
  function DrawnCount(font: Font, start: nat, text: Text, xsize: nat): (n: nat)
    ensures n <= |text|
    decreases |text|
  {
    if text == [] || start + CharWidth(font, text[0]) > xsize then 0
    else 1 + DrawnCount(font, start + CharWidth(font, text[0]), text[1..], xsize)
  }

  lemma DrawnCountStep(font: Font, column: nat, text: Text, i: nat, xsize: nat)
    requires i < |text|
    ensures DrawnCount(font, column, text[i..], xsize) ==
            if column + CharWidth(font, text[i]) > xsize then 0
            else 1 + DrawnCount(font, column + CharWidth(font, text[i]), text[i + 1..], xsize)
  {
    assert text[i..][1..] == text[i + 1..];
  }

  ghost predicate Fits(font: Font, start: nat, text: Text, k: nat, xsize: nat)
    requires k <= |text|
  {
    start + TextWidth(font, text[..k]) <= xsize
  }

  lemma {:induction false} TextWidthFront(font: Font, text: Text)
    requires text != []
    ensures TextWidth(font, text) == CharWidth(font, text[0]) + TextWidth(font, text[1..])
    decreases |text|
  {
    if |text| > 1 {
      TextWidthFront(font, text[..|text| - 1]);
      assert text[..|text| - 1][1..] == text[1..][..|text| - 2];
    }
  }

  /** What is drawn is the longest prefix that fits: a prefix of `k >= 1` characters fits iff all of it is drawn. */
  lemma {:induction false} DrawnIsLongestPrefix(font: Font, start: nat, text: Text, xsize: nat, k: nat)
    requires 1 <= k <= |text|
    ensures Fits(font, start, text, k, xsize) <==> k <= DrawnCount(font, start, text, xsize)
    decreases |text|
  {
    var w := CharWidth(font, text[0]);
    TextWidthFront(font, text[..k]);
    assert text[..k][1..] == text[1..][..k - 1];
    assert text[1..][..0] == [];
    if start + w <= xsize && k > 1 {
      DrawnIsLongestPrefix(font, start + w, text[1..], xsize, k - 1);
    }
  }

  /** The whole text is drawn exactly when its right edge stays on the panel. */
  lemma DrawnWhole(font: Font, start: nat, text: Text, xsize: nat)
    ensures DrawnCount(font, start, text, xsize) == |text| <==> text == [] || start + TextWidth(font, text) <= xsize
  {
    if text != [] {
      DrawnIsLongestPrefix(font, start, text, xsize, |text|);
      assert text[..|text|] == text;
    }
  }

  ghost predicate TextDrawable(font: Font, text: Text) {
    forall c :: c in text ==> Drawable(font, c)
  }

  lemma PrefixDrawable(font: Font, text: Text, k: nat, n: nat)
    requires k <= n <= |text| && TextDrawable(font, text[..n])
    ensures TextDrawable(font, text[..k])
  {
    assert text[..k] == text[..n][..k];
    hide Drawable;
  }

  /** Drawing the glyphs of a text one after the other, from column `start` and line `y`. */
  function DrawText(f: Frame, font: Font, start: nat, y: U32, text: Text, fg: Pixel, bg: Pixel): (g: Frame)
    requires TextDrawable(font, text)
    ensures |g| == |f| && forall y :: 0 <= y < |f| ==> |g[y]| == |f[y]|
  {
    if text == [] then f
    else
      var front, last := text[..|text| - 1], text[|text| - 1];
      var before := DrawText(f, font, start, y, front, fg, bg);
      match Lookup(font.chars, last)
      case None => before
      case Some(c) =>
        assert last in text && Drawable(font, last);
        PaintGlyph(before, font, Placement(c, start + TextWidth(font, front), c.width, y), font.height, fg, bg)
  }

  lemma NothingDrawn(f: Frame, font: Font, start: nat, y: U32, text: Text, fg: Pixel, bg: Pixel)
    ensures TextWidth(font, text[..0]) == 0 && DrawText(f, font, start, y, text[..0], fg, bg) == f
  {
  }

  /** A pixel outside the strip that the text occupies keeps its value. */
  lemma {:induction false} TextOutside(f: Frame, font: Font, start: nat, y: U32, text: Text, fg: Pixel, bg: Pixel,
                                          px: nat, py: nat)
    requires TextDrawable(font, text) && py < |f| && px < |f[py]|
    requires px < start || px >= start + TextWidth(font, text) || GlyphLine(py, y) >= font.height
    ensures DrawText(f, font, start, y, text, fg, bg)[py][px] == f[py][px]
    decreases |text|
  {
    if text != [] {
      TextOutside(f, font, start, y, text[..|text| - 1], fg, bg, px, py);
    }
  }

  /**
   * A pixel in the columns of character `k` shows that character's glyph: foreground where the glyph's
   * bit is set, background elsewhere. No other character of the text draws over it.
   */
  lemma {:induction false} TextPixel(f: Frame, font: Font, start: nat, y: U32, text: Text, fg: Pixel, bg: Pixel,
                                        k: nat, px: nat, py: nat)
    requires TextDrawable(font, text) && py < |f| && px < |f[py]| && k < |text|
    requires start + TextWidth(font, text[..k]) <= px < start + TextWidth(font, text[..k + 1])
    requires GlyphLine(py, y) < font.height
    ensures Lookup(font.chars, text[k]).Some? && Stored(font, Lookup(font.chars, text[k]).value)
    ensures px - (start + TextWidth(font, text[..k])) < Lookup(font.chars, text[k]).value.width
    ensures DrawText(f, font, start, y, text, fg, bg)[py][px] ==
            if GlyphBit(font, Lookup(font.chars, text[k]).value, GlyphLine(py, y),
                        px - (start + TextWidth(font, text[..k])))
            then fg else bg
    decreases |text|
  {
    hide Lookup, GlyphBit, TextWidth;
    assert text[k] in text && Drawable(font, text[k]);
    TextWidthExtend(font, text, k);
    var n := |text| - 1;
    if k < n {
      PrefixWidth(font, text, k + 1, n);
      LaterGlyphMisses(f, font, start, y, text, fg, bg, px, py);
      assert text[..n][..k] == text[..k] && text[..n][..k + 1] == text[..k + 1];
      TextPixel(f, font, start, y, text[..n], fg, bg, k, px, py);
    }
  }

  /**
   * Row `i`, column `j` of character `n` lands on line `y + i`, `j` columns behind the characters before it,
   * and shows the bit that the font's table stores for it.
   */
  lemma TextCell(f: Frame, font: Font, start: nat, y: U32, text: Text, fg: Pixel, bg: Pixel, n: nat, c: CharInfo,
                 i: nat, j: nat, px: nat, py: nat, k: nat)
    requires TextDrawable(font, text) && n < |text| && Lookup(font.chars, text[n]) == Some(c)
    requires i < font.height && j < c.width && py < |f| && px < |f[py]|
    requires px == start + TextWidth(font, text[..n]) + j && py == (y + i) % U32_MOD
    requires k == c.offset + (c.width + 7) / 8 * i + j / 8
    ensures k < |font.table|
    ensures DrawText(f, font, start, y, text, fg, bg)[py][px] ==
            if font.table[k] & (0x80 >> (j % 8)) != 0 then fg else bg
  {
    hide GlyphBit, DrawText, TextWidth, Stored;
    assert text[n] in text && Drawable(font, text[n]);
    TextWidthExtend(font, text, n);
    LineOfRow(y, i);
    TextPixel(f, font, start, y, text, fg, bg, n, px, py);
    GlyphBitIs(font, c, i, j, k);
  }

  /** The last glyph of a text leaves the columns before it alone. */
  lemma LaterGlyphMisses(f: Frame, font: Font, start: nat, y: U32, text: Text, fg: Pixel, bg: Pixel, px: nat, py: nat)
    requires TextDrawable(font, text) && py < |f| && px < |f[py]| && text != []
    requires px < start + TextWidth(font, text[..|text| - 1])
    ensures DrawText(f, font, start, y, text, fg, bg)[py][px]
            == DrawText(f, font, start, y, text[..|text| - 1], fg, bg)[py][px]
  {
  }

  /** Every column of the strip belongs to exactly one character. */
  lemma {:induction false} ColumnOwner(font: Font, start: nat, text: Text, px: nat) returns (k: nat)
    requires start <= px < start + TextWidth(font, text)
    ensures k < |text| && start + TextWidth(font, text[..k]) <= px < start + TextWidth(font, text[..k + 1])
    ensures forall j :: 0 <= j < |text| && j != k ==>
              !(start + TextWidth(font, text[..j]) <= px < start + TextWidth(font, text[..j + 1]))
    decreases |text|
  {
    var n := |text| - 1;
    if px >= start + TextWidth(font, text[..n]) {
      k := n;
      assert text[..n + 1] == text;
    } else {
      k := ColumnOwner(font, start, text[..n], px);
      assert text[..n][..k] == text[..k] && text[..n][..k + 1] == text[..k + 1];
    }
    forall j | 0 <= j < |text| && j != k
      ensures !(start + TextWidth(font, text[..j]) <= px < start + TextWidth(font, text[..j + 1])) {
      if j < k {
        PrefixWidth(font, text, j + 1, k);
      } else {
        PrefixWidth(font, text, k + 1, j);
      }
    }
  }

  /** Character `k` owns the pixel's column, and the pixel shows the bit of its glyph there. */
  ghost predicate Shows(font: Font, start: nat, y: U32, text: Text, k: nat, fg: Pixel, bg: Pixel,
                        px: nat, py: nat, shown: Pixel)
    requires k < |text|
  {
    var left := start + TextWidth(font, text[..k]);
    && left <= px < start + TextWidth(font, text[..k + 1]) && GlyphLine(py, y) < font.height
    && match Lookup(font.chars, text[k])
       case None => false
       case Some(c) =>
         Stored(font, c) && px - left < c.width
         && shown == if GlyphBit(font, c, GlyphLine(py, y), px - left) then fg else bg
  }

  /** The strip of what is drawn ends on the panel, and one more character would not fit. */
  lemma StripOnPanel(font: Font, start: nat, text: Text, xsize: nat)
    ensures var n := DrawnCount(font, start, text, xsize);
            && (n > 0 ==> start + TextWidth(font, text[..n]) <= xsize)
            && (n < |text| ==> start + TextWidth(font, text[..n + 1]) > xsize)
  {
    var n := DrawnCount(font, start, text, xsize);
    if n > 0 {
      DrawnIsLongestPrefix(font, start, text, xsize, n);
    }
    if n < |text| {
      DrawnIsLongestPrefix(font, start, text, xsize, n + 1);
    }
  }

  /**
   * Every pixel after a string was drawn: in the strip of the drawn prefix it shows the glyph bit of the
   * character that owns its column, and everywhere else it keeps its value.
   */
  lemma StringPixel(f: Frame, font: Font, x: U32, y: U32, text: Text, xsize: nat, fg: Pixel, bg: Pixel,
                    px: nat, py: nat)
    requires TextDrawable(font, text[..DrawnCount(font, StartColumn(x), text, xsize)])
    requires py < |f| && px < |f[py]|
    ensures var start := StartColumn(x);
            var drawn := text[..DrawnCount(font, start, text, xsize)];
            var shown := DrawText(f, font, start, y, drawn, fg, bg)[py][px];
            if start <= px < start + TextWidth(font, drawn) && GlyphLine(py, y) < font.height
            then exists k: nat :: k < |drawn| && Shows(font, start, y, drawn, k, fg, bg, px, py, shown)
            else shown == f[py][px]
  {
    hide Lookup, GlyphBit, TextWidth, DrawText, DrawnCount;
    var start := StartColumn(x);
    var drawn := text[..DrawnCount(font, start, text, xsize)];
    if start <= px < start + TextWidth(font, drawn) && GlyphLine(py, y) < font.height {
      var k := ColumnOwner(font, start, drawn, px);
      TextPixel(f, font, start, y, drawn, fg, bg, k, px, py);
      assert Shows(font, start, y, drawn, k, fg, bg, px, py, DrawText(f, font, start, y, drawn, fg, bg)[py][px]);
    } else {
      TextOutside(f, font, start, y, drawn, fg, bg, px, py);
    }
  }

  /** Plain char widened to 32 bits: negative values sign-extend where char is signed. */
  function Widen(c: U8, charIsSigned: bool): U32 {
    if charIsSigned && c >= 0x80 then U32_MOD - 0x100 + c else c
  }

  /** The 16-bit width that alignment works with. */
  function MeasuredWidth(font: Font, text: Text, charIsSigned: bool): U16 {
    if text == [] then 0
    else (MeasuredWidth(font, text[..|text| - 1], charIsSigned)
          + CharWidth(font, Widen(text[|text| - 1], charIsSigned))) % U16_MOD
  }

  /** Widening keeps the value that a char has: 0 to 255 where it is unsigned, -128 to 127 where it is signed. */
  lemma WidenKeepsValue(c: U8, charIsSigned: bool)
    ensures var widened := Widen(c, charIsSigned);
            (if widened < 0x8000_0000 then widened else widened - U32_MOD)
            == if charIsSigned && c >= 0x80 then c - 0x100 else c
  {
  }

  /** The characters below 0x80, in their order. */
  function SevenBit(text: Text): Text {
    if text == [] then []
    else
      var front, last := text[..|text| - 1], text[|text| - 1];
      if last < 0x80 then SevenBit(front) + [last] else SevenBit(front)
  }

  /** Where char is signed, a font without code points from 0xFFFFFF80 up measures the 7-bit characters alone. */
  lemma {:induction false} SignedMeasuresSevenBit(font: Font, text: Text)
    requires forall c :: c in font.chars ==> c.unicode < 0xFFFF_FF80
    ensures MeasuredWidth(font, text, true) == TextWidth(font, SevenBit(text)) % U16_MOD
  {
    if text != [] {
      var front, last := text[..|text| - 1], text[|text| - 1];
      SignedMeasuresSevenBit(font, front);
      if last < 0x80 {
        assert (SevenBit(front) + [last])[..|SevenBit(front)|] == SevenBit(front);
        AddWrapped(TextWidth(font, SevenBit(front)), CharWidth(font, last));
      } else {
        WidenKeepsValue(last, true);
        LookupFinds(font.chars, Widen(last, true));
      }
    }
  }

  /** A text that every platform widens alike. */
  ghost predicate PlainlyWidened(text: Text, charIsSigned: bool) {
    !charIsSigned || forall c :: c in text ==> c < 0x80
  }

  lemma AddWrapped(a: nat, b: nat)
    ensures (a % U16_MOD + b) % U16_MOD == (a + b) % U16_MOD
  {
  }

  lemma {:induction false} MeasuredIsWidth(font: Font, text: Text, charIsSigned: bool)
    requires PlainlyWidened(text, charIsSigned)
    ensures MeasuredWidth(font, text, charIsSigned) == TextWidth(font, text) % U16_MOD
    decreases |text|
  {
    if text != [] {
      var n := |text| - 1;
      assert forall c :: c in text[..n] ==> c in text;
      MeasuredIsWidth(font, text[..n], charIsSigned);
      assert text[n] in text;
      assert Widen(text[n], charIsSigned) == text[n];
      AddWrapped(TextWidth(font, text[..n]), CharWidth(font, text[n]));
    }
  }

  /** The column that draw_string_at_line computes for an alignment; its unsigned subtractions wrap. */
  function AlignedColumn(mode: AlignMode, xsize: U32, measured: U16): U32 {
    match mode
    case Center => Sub32(xsize / 2, measured / 2)
    case Left => 0
    case Right => Sub32(xsize, measured)
  }

  function AlignedStart(font: Font, text: Text, mode: AlignMode, xsize: U32, charIsSigned: bool): U32 {
    StartColumn(AlignedColumn(mode, xsize, MeasuredWidth(font, text, charIsSigned)))
  }

  /**
   * When a text of width `width` that measures `measured` fits at its aligned start: it is narrower than the
   * panel, and it either starts at column 1 or at a column that leaves it enough room.
   */
  predicate FitsAligned(mode: AlignMode, xsize: U16, measured: U16, width: nat) {
    && width < xsize
    && match mode
       case Left => true
       case Right => width <= measured || xsize - measured >= 0x8000
       case Center => xsize / 2 <= measured / 2 || xsize / 2 + width <= xsize + measured / 2
  }

  lemma AlignedRoom(mode: AlignMode, xsize: U16, measured: U16, width: nat)
    ensures StartColumn(AlignedColumn(mode, xsize, measured)) + width <= xsize
            <==> FitsAligned(mode, xsize, measured, width)
  {
  }

  /**
   * Whatever the text and however plain char is widened, an aligned text is drawn whole exactly when its
   * measured width places it so that it fits.
   */
  lemma AlignedTextIsWhole(font: Font, text: Text, mode: AlignMode, xsize: U16, charIsSigned: bool)
    ensures DrawnCount(font, AlignedStart(font, text, mode, xsize, charIsSigned), text, xsize) == |text|
            <==> text == []
                 || FitsAligned(mode, xsize, MeasuredWidth(font, text, charIsSigned), TextWidth(font, text))
  {
    DrawnWhole(font, AlignedStart(font, text, mode, xsize, charIsSigned), text, xsize);
    AlignedRoom(mode, xsize, MeasuredWidth(font, text, charIsSigned), TextWidth(font, text));
  }

  /** Under every alignment, a text that is measured as it is drawn fits exactly when it is narrower than the panel. */
  lemma PlainTextIsWhole(font: Font, text: Text, mode: AlignMode, xsize: U16, charIsSigned: bool)
    requires xsize >= 1 && PlainlyWidened(text, charIsSigned)
    ensures DrawnCount(font, AlignedStart(font, text, mode, xsize, charIsSigned), text, xsize) == |text|
            <==> TextWidth(font, text) < xsize
  {
    hide DrawnCount, AlignedStart;
    AlignedTextIsWhole(font, text, mode, xsize, charIsSigned);
    MeasuredIsWidth(font, text, charIsSigned);
  }

  /**
   * Right alignment puts the measured width at the panel's edge and centring leaves margins around it that
   * differ by one column exactly when one of panel and text is odd, the wider margin on the right when it is
   * the panel, unless the computed column is 0 or at least 0x8000, which column 1 replaces.
   */
  lemma AlignedPlacement(font: Font, text: Text, mode: AlignMode, xsize: U16, charIsSigned: bool)
    ensures var start := AlignedStart(font, text, mode, xsize, charIsSigned);
            var measured := MeasuredWidth(font, text, charIsSigned);
            match mode
            case Left => start == 1
            case Right =>
              if measured < xsize && xsize - measured < 0x8000 then start + measured == xsize else start == 1
            case Center =>
              if xsize / 2 > measured / 2 then xsize - (start + measured) == start + xsize % 2 - measured % 2
              else start == 1
  {
    PlacedAt(mode, xsize, MeasuredWidth(font, text, charIsSigned));
  }

  lemma PlacedAt(mode: AlignMode, xsize: U16, measured: U16)
    ensures var start := StartColumn(AlignedColumn(mode, xsize, measured));
            match mode
            case Left => start == 1
            case Right =>
              if measured < xsize && xsize - measured < 0x8000 then start + measured == xsize else start == 1
            case Center =>
              if xsize / 2 > measured / 2 then xsize - (start + measured) == start + xsize % 2 - measured % 2
              else start == 1
  {
  }

  /** When alignment ends up at column 1, asked for or as a replacement. */
  predicate AtFirstColumn(mode: AlignMode, xsize: U16, measured: U16) {
    match mode
    case Left => true
    case Right => xsize <= measured + 1 || xsize - measured >= 0x8000
    case Center => xsize / 2 <= measured / 2 + 1
  }

  lemma StartsFirst(mode: AlignMode, xsize: U16, measured: U16)
    ensures StartColumn(AlignedColumn(mode, xsize, measured)) == 1 <==> AtFirstColumn(mode, xsize, measured)
    ensures xsize <= measured ==> AtFirstColumn(mode, xsize, measured)
  {
  }

  /**
   * A text that measures at least as wide as the panel starts at column 1, whatever was asked for. A text so
   * wide that its 16-bit sum wraps can measure less: it starts at column 1 exactly when what is left of its
   * width says so.
   */
  lemma TooWideFallsBack(font: Font, text: Text, mode: AlignMode, xsize: U16, charIsSigned: bool)
    ensures xsize <= MeasuredWidth(font, text, charIsSigned) ==>
              AlignedStart(font, text, mode, xsize, charIsSigned) == 1
    ensures PlainlyWidened(text, charIsSigned) ==>
              (AlignedStart(font, text, mode, xsize, charIsSigned) == 1
               <==> AtFirstColumn(mode, xsize, TextWidth(font, text) % U16_MOD))
  {
    StartsFirst(mode, xsize, MeasuredWidth(font, text, charIsSigned));
    if PlainlyWidened(text, charIsSigned) {
      MeasuredIsWidth(font, text, charIsSigned);
    }
  }

  /** Where char is signed, an 8-bit character measures 0 and right alignment pushes it off the panel. */
  lemma SignedCharCutsText()
    ensures exists font, text ::
              TextDrawable(font, text) && TextWidth(font, text) < 20
              && DrawnCount(font, AlignedStart(font, text, Right, 20, true), text, 20) < |text|
  {
    var c := CharInfo(0xE9, 0, 8);
    var font := Font(1, [c], [0]);
    var text: Text := [0xE9];
    assert Lookup(font.chars, 0xE9) == Some(c);
    assert Lookup(font.chars[1..], Widen(0xE9, true)) == None;
    assert MeasuredWidth(font, text[..0], true) == 0 && TextWidth(font, text[..0]) == 0;
    assert MeasuredWidth(font, text, true) == 0;
    assert AlignedStart(font, text, Right, 20, true) == 20;
    assert TextDrawable(font, text) && TextWidth(font, text) == 8;
  }
}
