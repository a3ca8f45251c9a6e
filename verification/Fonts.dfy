/** Bitmap fonts: looking a character up and unpacking one row of its bits. */
module Fonts {
  import opened Words
  import opened Pixels
  import opened Options

  datatype CharInfo = CharInfo(unicode: U32, offset: U32, width: U8)

  datatype Font = Font(height: U8, chars: seq<CharInfo>, table: seq<Byte>)

  /** Glyph rows must fit the fixed 48-pixel buffer of the drawing routine. */
  const MAX_CHAR_WIDTH := 48

  function RowBytes(width: nat): nat {
    (width + 7) / 8
  }

  /** What the drawing routine relies on for a glyph: it is narrow enough and lies inside the table. */
  ghost predicate Stored(font: Font, c: CharInfo) {
    c.width < MAX_CHAR_WIDTH && c.offset + RowBytes(c.width) * font.height <= |font.table|
  }

  lemma StoredIs(font: Font, c: CharInfo)
    ensures Stored(font, c) <==> c.width < 48 && c.offset + (c.width + 7) / 8 * font.height <= |font.table|
  {
  }

  /** The first descriptor of a code point. */
  function Lookup(chars: seq<CharInfo>, unicode: U32): Option<CharInfo> {
    if chars == [] then None
    else if chars[0].unicode == unicode then Some(chars[0])
    else Lookup(chars[1..], unicode)
  }

  /** A lookup finds the descriptor of least index, and fails exactly when there is none. */
  lemma {:induction false} LookupFinds(chars: seq<CharInfo>, unicode: U32)
    ensures Lookup(chars, unicode).None? <==> forall c :: c in chars ==> c.unicode != unicode
    ensures Lookup(chars, unicode).Some? <==>
            exists i :: 0 <= i < |chars| && IsFirst(chars, unicode, i) && Lookup(chars, unicode) == Some(chars[i])
  {
    if chars != [] {
      if chars[0].unicode == unicode {
        assert IsFirst(chars, unicode, 0);
      } else {
        LookupFinds(chars[1..], unicode);
        if Lookup(chars, unicode).Some? {
          var i :| 0 <= i < |chars[1..]| && IsFirst(chars[1..], unicode, i)
              && Lookup(chars[1..], unicode) == Some(chars[1..][i]);
          assert IsFirst(chars, unicode, i + 1) by {
            assert forall j :: 0 < j < i + 1 ==> chars[j] == chars[1..][j - 1];
          }
        }
      }
    }
  }

  ghost predicate IsFirst(chars: seq<CharInfo>, unicode: U32, i: nat) {
    i < |chars| && chars[i].unicode == unicode && forall j :: 0 <= j < i ==> chars[j].unicode != unicode
  }

  function CharWidth(font: Font, unicode: U32): U8 {
    match Lookup(font.chars, unicode)
    case Some(c) => c.width
    case None => 0
  }

  method GetCharWidth(font: Font, unicode: U32) returns (width: U8)
    ensures width == CharWidth(font, unicode)
  {
    for i := 0 to |font.chars|
      invariant Lookup(font.chars, unicode) == Lookup(font.chars[i..], unicode)
    {
      if font.chars[i].unicode == unicode {
        return font.chars[i].width;
      }
    }
    return 0;
  }

  /** The table index of a glyph's first byte together with its width, if the font has it. */
  method FontGetGlyph(font: Font, unicode: U32) returns (glyph: Option<(U32, U8)>)
    ensures glyph == match Lookup(font.chars, unicode)
                     case Some(c) => Some((c.offset, c.width))
                     case None => None
  {
    for i := 0 to |font.chars|
      invariant Lookup(font.chars, unicode) == Lookup(font.chars[i..], unicode)
    {
      if font.chars[i].unicode == unicode {
        return Some((font.chars[i].offset, font.chars[i].width));
      }
    }
    return None;
  }

  /** The font can draw the code point, or does not have it. */
  ghost predicate Drawable(font: Font, unicode: U32) {
    Lookup(font.chars, unicode).Some? ==> Stored(font, Lookup(font.chars, unicode).value)
  }

  /** Bit `j` of a row counted from the left: the most significant bit of each byte comes first. */
  predicate RowBit(bytes: seq<Byte>, j: nat)
    requires j < 8 * |bytes|
  {
    ByteTest(bytes[j / 8], 7 - j % 8)
  }

  /** The bytes of one row of a glyph. */
  function GlyphRow(font: Font, c: CharInfo, row: nat): (bytes: seq<Byte>)
    requires Stored(font, c) && row < font.height
    ensures |bytes| == RowBytes(c.width)
  {
    RowInTable(font, c, row);
    var start := c.offset + RowBytes(c.width) * row;
    font.table[start..start + RowBytes(c.width)]
  }

  lemma RowInTable(font: Font, c: CharInfo, row: nat)
    requires Stored(font, c) && row < font.height
    ensures RowBytes(c.width) <= 6
    ensures c.offset + RowBytes(c.width) * row + RowBytes(c.width) <= |font.table|
  {
    var n, h := RowBytes(c.width), font.height;
    assert n * (row + 1) <= n * h by {
      if row + 1 < h {
        assert n * h == n * (row + 1) + n * (h - row - 1);
      }
    }
  }

  function GlyphBit(font: Font, c: CharInfo, row: nat, col: nat): bool
    requires Stored(font, c) && row < font.height && col < c.width
  {
    RowBit(GlyphRow(font, c, row), col)
  }

  lemma MaskFromLeft(b: Byte, m: nat)
    requires m < 8
    ensures ByteTest(b, 7 - m) <==> b & (0x80 >> m) != 0
  {
    if m == 0 {} else if m == 1 {} else if m == 2 {} else if m == 3 {}
    else if m == 4 {} else if m == 5 {} else if m == 6 {} else {}
  }

  /**
   * Where a glyph's bit is stored: rows of `(width + 7) / 8` bytes follow one another from the glyph's offset,
   * and the leftmost column of a byte is its most significant bit.
   */
  lemma GlyphBitIs(font: Font, c: CharInfo, i: nat, j: nat, k: nat)
    requires Stored(font, c) && i < font.height && j < c.width
    requires k == c.offset + (c.width + 7) / 8 * i + j / 8
    ensures k < |font.table| && (GlyphBit(font, c, i, j) <==> font.table[k] & (0x80 >> (j % 8)) != 0)
  {
    hide ByteTest, GlyphRow, Stored, RowBytes;
    ColumnByte(c.width, j);
    RowStart(c.width, i);
    RowByte(font, c, i, j / 8, k);
    MaskFromLeft(GlyphRow(font, c, i)[j / 8], j % 8);
  }

  lemma ColumnByte(width: nat, j: nat)
    requires j < width
    ensures j / 8 < RowBytes(width)
  {
  }

  lemma RowStart(width: nat, i: nat)
    ensures (width + 7) / 8 * i == RowBytes(width) * i >= 0
  {
  }

  lemma RowByte(font: Font, c: CharInfo, i: nat, q: nat, k: nat)
    requires Stored(font, c) && i < font.height && q < RowBytes(c.width)
    requires k == c.offset + RowBytes(c.width) * i + q
    ensures k < |font.table| && GlyphRow(font, c, i)[q] == font.table[k]
  {
    hide RowBytes, Stored;
    RowInTable(font, c, i);
    RowStart(c.width, i);
    SliceAt(font.table, c.offset + RowBytes(c.width) * i, RowBytes(c.width), q, k);
  }

  lemma SliceAt(bytes: seq<Byte>, start: nat, n: nat, q: nat, k: nat)
    requires start + n <= |bytes| && q < n && k == start + q
    ensures bytes[start..start + n][q] == bytes[k]
  {
  }

  lemma GlyphBitsAre(font: Font, c: CharInfo, i: nat)
    requires Stored(font, c) && i < font.height
    ensures forall j :: 0 <= j < c.width ==>
              c.offset + (c.width + 7) / 8 * i + j / 8 < |font.table|
              && (GlyphBit(font, c, i, j)
                  <==> font.table[c.offset + (c.width + 7) / 8 * i + j / 8] & (0x80 >> (j % 8)) != 0)
  {
    hide GlyphBit, Stored, RowBytes;
    RowStart(c.width, i);
    var start := c.offset + (c.width + 7) / 8 * i;
    forall j | 0 <= j < c.width
      ensures start + j / 8 < |font.table|
      ensures GlyphBit(font, c, i, j) <==> font.table[start + j / 8] & (0x80 >> (j % 8)) != 0 {
      GlyphBitIs(font, c, i, j, start + j / 8);
    }
  }

  /** Bytes shifted into a 64-bit accumulator, first byte most significant. */
  function Word(bytes: seq<Byte>): bv64 {
    if bytes == [] then 0
    else (Word(bytes[..|bytes| - 1]) << 8) | (bytes[|bytes| - 1] as bv64)
  }

  method RowWord(font: Font, start: nat, count: nat) returns (line: bv64)
    requires start + count <= |font.table|
    ensures line == Word(font.table[start..start + count])
  {
    line := 0;
    ghost var row := font.table[start..start + count];
    for j := 0 to count
      invariant line == Word(row[..j])
    {
      line := line << 8;
      line := line | (font.table[start + j] as bv64);
      assert row[..j + 1][..j] == row[..j];
    }
    assert row[..count] == row;
  }

  /** A shift amount agrees with its integer. */
  lemma {:induction false} ShiftAmount(k: nat)
    requires k <= 64
    ensures (k as bv64) as int == k
  {
    if k > 0 {
      ShiftAmount(k - 1);
      NextShiftAmount(k - 1, (k - 1) as bv64);
    }
  }

  lemma NextShiftAmount(k: nat, v: bv64)
    requires k < 64 && v as int == k
    ensures ((k + 1) as bv64) as int == k + 1
  {
    SmallWord(v);
    NextWord(v);
    WordOfInt(v + 1, k + 1);
  }

  lemma SmallWord(v: bv64)
    requires v as int < 64
    ensures v < 64
  {
  }

  lemma NextWord(v: bv64)
    requires v < 64
    ensures (v + 1) as int == v as int + 1
  {
  }

  lemma WordOfInt(u: bv64, n: nat)
    requires n <= 64 && u as int == n
    ensures n as bv64 == u
  {
  }

  lemma Below56(v: bv64)
    requires v as int < 56
    ensures v < 56
  {
  }

  lemma Add8(v: bv64)
    requires v < 56
    ensures (v + 8) as int == v as int + 8
  {
  }

  /** The last byte shifted in holds the eight lowest bits. */
  lemma LowBit(line: bv64, b: Byte, k: nat)
    requires k < 8
    ensures ((line << 8) | (b as bv64)) & (1 << k) != 0 <==> b & (1 << k) != 0
  {
    if k == 0 {} else if k == 1 {} else if k == 2 {} else if k == 3 {}
    else if k == 4 {} else if k == 5 {} else if k == 6 {} else {}
  }

  predicate WordTest(w: bv64, k: nat)
    requires k < 64
  {
    w & (1 << k) != 0
  }

  predicate ByteTest(b: Byte, s: nat)
    requires s < 8
  {
    b & (1 << s) != 0
  }

  /** WordTest with the number of the bit as a word. */
  predicate MaskTest(w: bv64, v: bv64)
    requires v < 64
  {
    w & (1 << v) != 0
  }

  lemma TestAt(w: bv64, k: nat, v: bv64)
    requires v as int == k && k < 64 && v < 64
    ensures WordTest(w, k) <==> MaskTest(w, v)
  {
    WordOfInt(v, k);
  }

  lemma HighBit(word: bv64, line: bv64, b: Byte, v: bv64)
    requires v < 56 && word == (line << 8) | (b as bv64)
    ensures MaskTest(word, v + 8) <==> MaskTest(line, v)
  {
  }

  /** Every higher bit is the bit eight places below it before the shift. */
  lemma ShiftedBit(word: bv64, line: bv64, b: Byte, k: nat)
    requires k < 56 && word == (line << 8) | (b as bv64)
    ensures WordTest(word, k + 8) <==> WordTest(line, k)
  {
    ShiftAmount(k);
    ShiftedBitAt(word, line, b, k, k as bv64);
  }

  lemma ShiftedBitAt(word: bv64, line: bv64, b: Byte, k: nat, v: bv64)
    requires k < 56 && v as int == k && word == (line << 8) | (b as bv64)
    ensures WordTest(word, k + 8) <==> WordTest(line, k)
  {
    hide WordTest, MaskTest;
    Below56(v);
    Add8(v);
    TestAt(line, k, v);
    TestAt(word, k + 8, v + 8);
    HighBit(word, line, b, v);
  }

  lemma LastByteBit(bytes: seq<Byte>, s: nat)
    requires |bytes| > 0 && s < 8
    ensures WordTest(Word(bytes), s) <==> ByteTest(bytes[|bytes| - 1], s)
  {
    LowBit(Word(bytes[..|bytes| - 1]), bytes[|bytes| - 1], s);
  }

  lemma FrontBytesBit(bytes: seq<Byte>, k: nat)
    requires |bytes| > 0 && k < 56
    ensures WordTest(Word(bytes), k + 8) <==> WordTest(Word(bytes[..|bytes| - 1]), k)
  {
    var line, b := Word(bytes[..|bytes| - 1]), bytes[|bytes| - 1];
    var word := Word(bytes);
    assert word == (line << 8) | (b as bv64);
    ShiftedBit(word, line, b, k);
  }

  /** Bit `s` of byte `q` is found in the word above the eight bits of every later byte. */
  lemma {:induction false} WordByteBit(bytes: seq<Byte>, q: nat, s: nat, k: nat)
    requires q < |bytes| <= 8 && s < 8 && k == 8 * (|bytes| - 1 - q) + s
    ensures WordTest(Word(bytes), k) <==> ByteTest(bytes[q], s)
    decreases |bytes|
  {
    if q == |bytes| - 1 {
      LastByteBit(bytes, s);
    } else {
      FrontBytesBit(bytes, k - 8);
      WordByteBit(bytes[..|bytes| - 1], q, s, k - 8);
    }
  }

  /**
   * Testing bit `8n - 1 - j` of the accumulated word is testing bit `7 - j % 8` of byte `j / 8`:
   * the word read from its top bit down is the row read from left to right.
   */
  lemma WordBit(bytes: seq<Byte>, j: nat)
    requires |bytes| <= 8 && j < 8 * |bytes|
    ensures WordTest(Word(bytes), 8 * |bytes| - 1 - j) <==> RowBit(bytes, j)
  {
    WordByteBit(bytes, j / 8, 7 - j % 8, 8 * |bytes| - 1 - j);
  }

  /** Tests the bits of a row's word from the left and stores one colour value per pixel. */
  method RowPixels(line: bv64, ghost row: seq<Byte>, width: U8, offset: nat, fg: Pixel, bg: Pixel, pixels: array<Pixel>)
    requires width < MAX_CHAR_WIDTH == pixels.Length && |row| == RowBytes(width)
    requires line == Word(row) && offset == 8 * |row| - width
    modifies pixels
    ensures forall j :: 0 <= j < width ==> pixels[j] == if RowBit(row, j) then fg else bg
  {
    for j := 0 to width
      invariant forall i :: 0 <= i < j ==> pixels[i] == if RowBit(row, i) then fg else bg
    {
      WordBit(row, j);
      if WordTest(line, width - j + offset - 1) {
        pixels[j] := fg;
      } else {
        pixels[j] := bg;
      }
    }
  }

  /** One row of a glyph as colour values, unpacked through the 64-bit word of the row's bytes. */
  method UnpackRow(font: Font, ghost c: CharInfo, ghost i: nat, at: nat, bytesPerLine: nat, charWidth: U8, offset: nat,
                   fg: Pixel, bg: Pixel) returns (pixels: array<Pixel>)
    requires Stored(font, c) && i < font.height && charWidth == c.width
    requires bytesPerLine == RowBytes(charWidth) && offset == 8 * bytesPerLine - charWidth
    requires at == c.offset + bytesPerLine * i
    ensures fresh(pixels) && pixels.Length == MAX_CHAR_WIDTH
    ensures forall j :: 0 <= j < charWidth ==> pixels[j] == if GlyphBit(font, c, i, j) then fg else bg
    ensures forall j :: 0 <= j < charWidth ==>
              c.offset + (c.width + 7) / 8 * i + j / 8 < |font.table|
              && pixels[j] == if font.table[c.offset + (c.width + 7) / 8 * i + j / 8] & (0x80 >> (j % 8)) != 0
                              then fg else bg
  {
    hide ByteTest, WordTest, Word;
    RowInTable(font, c, i);
    var line := RowWord(font, at, bytesPerLine);
    pixels := new Pixel[MAX_CHAR_WIDTH](_ => 0);
    RowPixels(line, GlyphRow(font, c, i), charWidth, offset, fg, bg, pixels);
    GlyphBitsAre(font, c, i);
  }
}
