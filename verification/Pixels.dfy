/** The two pixel encodings of the display driver and the four routines that fill the line buffer. */
module Pixels {
  import opened Words

  type Byte = bv8
  type Pixel = bv32

  /** What a panel reports as its current format; every format but the first two is refused. */
  datatype PixelFormat = ARGB8888 | RGB888 | Unsupported

  predicate Supported(format: PixelFormat) {
    !format.Unsupported?
  }

  function BytesPerPixel(format: PixelFormat): (n: nat)
    ensures n == 3 || n == 4
  {
    if format.ARGB8888? then 4 else 3
  }

  function ByteAt(p: Pixel, shift: bv32): Byte
    requires shift <= 24
  {
    ((p >> shift) & 0xFF) as Byte
  }

  /** The bytes stored for one pixel: a native little-endian word, or the three bytes B, G, R. */
  function Encode(format: PixelFormat, p: Pixel): (bytes: seq<Byte>)
    ensures |bytes| == BytesPerPixel(format)
  {
    var bgr := [ByteAt(p, 0), ByteAt(p, 8), ByteAt(p, 16)];
    if format.ARGB8888? then bgr + [ByteAt(p, 24)] else bgr
  }

  function JoinBgr(blue: Byte, green: Byte, red: Byte): Pixel {
    (blue as Pixel) | (green as Pixel << 8) | (red as Pixel << 16)
  }

  function JoinWord(b0: Byte, b1: Byte, b2: Byte, b3: Byte): Pixel {
    (b0 as Pixel) | (b1 as Pixel << 8) | (b2 as Pixel << 16) | (b3 as Pixel << 24)
  }

  /** How the panel reads one pixel back from the buffer. */
  function Decode(format: PixelFormat, bytes: seq<Byte>): Pixel
    requires |bytes| == BytesPerPixel(format)
  {
    if format.ARGB8888? then JoinWord(bytes[0], bytes[1], bytes[2], bytes[3])
    else JoinBgr(bytes[0], bytes[1], bytes[2])
  }

  /** The part of a colour value that a format can carry. */
  function Visible(format: PixelFormat, p: Pixel): Pixel {
    if format.ARGB8888? then p else p & 0x00FF_FFFF
  }

  lemma DecodeEncode(format: PixelFormat, p: Pixel)
    ensures Decode(format, Encode(format, p)) == Visible(format, p)
  {
    if format.ARGB8888? {
      assert Encode(format, p) == [ByteAt(p, 0), ByteAt(p, 8), ByteAt(p, 16), ByteAt(p, 24)];
      JoinWordBytes(p);
    } else {
      JoinBgrBytes(p);
    }
  }

  lemma JoinWordBytes(p: Pixel)
    ensures JoinWord(ByteAt(p, 0), ByteAt(p, 8), ByteAt(p, 16), ByteAt(p, 24)) == p
  {
  }

  lemma JoinBgrBytes(p: Pixel)
    ensures JoinBgr(ByteAt(p, 0), ByteAt(p, 8), ByteAt(p, 16)) == p & 0x00FF_FFFF
  {
  }

  /** The bytes of consecutive pixels. */
  function EncodeLine(format: PixelFormat, pixels: seq<Pixel>): (bytes: seq<Byte>)
    ensures |bytes| == BytesPerPixel(format) * |pixels|
  {
    if pixels == [] then []
    else EncodeLine(format, pixels[..|pixels| - 1]) + Encode(format, pixels[|pixels| - 1])
  }

  /** Pixel `k` of a byte buffer. */
  function PixelAt(format: PixelFormat, bytes: seq<Byte>, k: nat): Pixel
    requires BytesPerPixel(format) * (k + 1) <= |bytes|
  {
    var n := BytesPerPixel(format);
    Decode(format, bytes[n * k..n * k + n])
  }

  /** The bytes of pixel `k` sit at `k` times the pixel size. */
  lemma {:induction false} EncodedSlice(format: PixelFormat, pixels: seq<Pixel>, k: nat)
    requires k < |pixels|
    ensures var n := BytesPerPixel(format);
            n * k + n <= |EncodeLine(format, pixels)|
            && EncodeLine(format, pixels)[n * k..n * k + n] == Encode(format, pixels[k])
    decreases |pixels|
  {
    hide Encode;
    var n := BytesPerPixel(format);
    var last := |pixels| - 1;
    var front, tail := EncodeLine(format, pixels[..last]), Encode(format, pixels[last]);
    assert EncodeLine(format, pixels) == front + tail;
    if k == last {
      assert (front + tail)[n * k..n * k + n] == tail;
    } else {
      EncodedSlice(format, pixels[..last], k);
      MulLess(n, k, last);
      SliceOfFront(front, tail, n * k, n * k + n);
    }
  }

  lemma SliceOfFront(front: seq<Byte>, tail: seq<Byte>, i: nat, j: nat)
    requires i <= j <= |front|
    ensures (front + tail)[i..j] == front[i..j]
  {
  }

  /** Every pixel of an encoded line reads back as what the format can carry of it. */
  lemma EncodedPixel(format: PixelFormat, pixels: seq<Pixel>, k: nat)
    requires k < |pixels|
    ensures BytesPerPixel(format) * (k + 1) <= |EncodeLine(format, pixels)|
    ensures PixelAt(format, EncodeLine(format, pixels), k) == Visible(format, pixels[k])
  {
    EncodedSlice(format, pixels, k);
    DecodeEncode(format, pixels[k]);
  }

  /** Four bytes a pixel from the lowest to the highest. */
  lemma EncodedWordBytes(pixels: seq<Pixel>, k: nat)
    requires k < |pixels|
    ensures 4 * k + 3 < |EncodeLine(ARGB8888, pixels)|
    ensures var line, p := EncodeLine(ARGB8888, pixels), pixels[k];
            && line[4 * k] as Pixel == p & 0xFF
            && line[4 * k + 1] as Pixel == (p >> 8) & 0xFF
            && line[4 * k + 2] as Pixel == (p >> 16) & 0xFF
            && line[4 * k + 3] as Pixel == p >> 24
  {
    hide Encode, EncodeLine;
    EncodedSlice(ARGB8888, pixels, k);
    var line := EncodeLine(ARGB8888, pixels);
    var word := line[4 * k..4 * k + 4];
    assert word[0] == line[4 * k] && word[1] == line[4 * k + 1];
    assert word[2] == line[4 * k + 2] && word[3] == line[4 * k + 3];
    StoredBytes(pixels[k]);
  }

  /** Three bytes a pixel: blue, green, red. */
  lemma EncodedBgrBytes(pixels: seq<Pixel>, k: nat)
    requires k < |pixels|
    ensures 3 * k + 2 < |EncodeLine(RGB888, pixels)|
    ensures var line, p := EncodeLine(RGB888, pixels), pixels[k];
            && line[3 * k] as Pixel == p & 0xFF
            && line[3 * k + 1] as Pixel == (p >> 8) & 0xFF
            && line[3 * k + 2] as Pixel == (p >> 16) & 0xFF
  {
    hide Encode, EncodeLine;
    EncodedSlice(RGB888, pixels, k);
    var line := EncodeLine(RGB888, pixels);
    var bgr := line[3 * k..3 * k + 3];
    assert bgr[0] == line[3 * k] && bgr[1] == line[3 * k + 1] && bgr[2] == line[3 * k + 2];
    StoredBytes(pixels[k]);
  }

  lemma StoredBytes(p: Pixel)
    ensures forall format | format in {ARGB8888, RGB888} ::
              && Encode(format, p)[0] as Pixel == p & 0xFF
              && Encode(format, p)[1] as Pixel == (p >> 8) & 0xFF
              && Encode(format, p)[2] as Pixel == (p >> 16) & 0xFF
    ensures Encode(ARGB8888, p)[3] as Pixel == p >> 24
  {
    ByteOf(p, 0);
    ByteOf(p, 8);
    ByteOf(p, 16);
    ByteOf(p, 24);
    TopByte(p);
  }

  lemma ByteOf(p: Pixel, shift: bv32)
    requires shift <= 24
    ensures ByteAt(p, shift) as Pixel == (p >> shift) & 0xFF
  {
  }

  lemma TopByte(p: Pixel)
    ensures (p >> 24) & 0xFF == p >> 24
  {
  }

  /** What the panel shows has the stored bytes as its channels. */
  lemma DecodedChannels(format: PixelFormat, bytes: seq<Byte>)
    requires |bytes| == BytesPerPixel(format)
    ensures Decode(format, bytes) & 0xFF == bytes[0] as Pixel
    ensures (Decode(format, bytes) >> 8) & 0xFF == bytes[1] as Pixel
    ensures (Decode(format, bytes) >> 16) & 0xFF == bytes[2] as Pixel
    ensures Decode(format, bytes) >> 24 == if format.ARGB8888? then bytes[3] as Pixel else 0
  {
  }

  /** A buffer that starts with an encoded line shows that line, whatever follows it. */
  lemma EncodedPrefixPixel(format: PixelFormat, bytes: seq<Byte>, pixels: seq<Pixel>, k: nat)
    requires k < |pixels|
    requires EncodeLine(format, pixels) <= bytes
    ensures BytesPerPixel(format) * (k + 1) <= |bytes|
    ensures PixelAt(format, bytes, k) == Visible(format, pixels[k])
  {
    EncodedPixel(format, pixels, k);
    var n := BytesPerPixel(format);
    var line := EncodeLine(format, pixels);
    assert bytes[n * k..n * k + n] == line[n * k..n * k + n];
  }

  /** `n` copies of one colour. */
  function Repeat(p: Pixel, n: nat): (pixels: seq<Pixel>)
    ensures |pixels| == n
    ensures forall k :: 0 <= k < n ==> pixels[k] == p
  {
    seq(n, _ => p)
  }

  /** How many pixels a routine stepping by whole pixels touches in a buffer of `size` bytes. */
  function PixelsCovering(size: nat, perPixel: nat): (n: nat)
    requires perPixel > 0
    ensures size <= perPixel * n < size + perPixel
  {
    if size == 0 then 0
    else if size <= perPixel then 1
    else 1 + PixelsCovering(size - perPixel, perPixel)
  }

  lemma WholePixels(n: nat, perPixel: nat)
    requires perPixel > 0
    ensures PixelsCovering(n * perPixel, perPixel) == n
  {
    var m := PixelsCovering(n * perPixel, perPixel);
    if m < n {
      MulLess(perPixel, m, n);
    } else if m > n {
      MulLess(perPixel, n, m);
    }
  }

  /** Filling the space of `n` pixels with a colour stores the bytes of a line of `n` pixels of that colour. */
  lemma ColorFillIsLineFill(format: PixelFormat, color: Pixel, src: seq<Pixel>, n: nat)
    requires n <= |src| && forall k :: 0 <= k < n ==> src[k] == color
    ensures var bytes := BytesPerPixel(format) * n;
            EncodeLine(format, Repeat(color, PixelsCovering(bytes, BytesPerPixel(format))))
                == EncodeLine(format, src[..n])
            && |EncodeLine(format, src[..n])| == bytes
  {
    WholePixels(n, BytesPerPixel(format));
    assert Repeat(color, n) == src[..n];
  }

  /** The state of a buffer after its first bytes were replaced by `bytes`. */
  predicate Overwrites(before: seq<Byte>, after: seq<Byte>, bytes: seq<Byte>) {
    |bytes| <= |before| && after == bytes + before[|bytes|..]
  }

  lemma {:induction false} EncodeExtend(format: PixelFormat, pixels: seq<Pixel>, k: nat)
    requires k < |pixels|
    ensures EncodeLine(format, pixels[..k + 1]) == EncodeLine(format, pixels[..k]) + Encode(format, pixels[k])
  {
    assert pixels[..k + 1][..k] == pixels[..k];
  }

  /** Storing pixel `k` behind the first `k` pixels extends the encoded line by one pixel. */
  lemma StoreExtends(format: PixelFormat, before: seq<Byte>, during: seq<Byte>, after: seq<Byte>,
                     pixels: seq<Pixel>, k: nat, at: nat)
    requires k < |pixels| && at == BytesPerPixel(format) * k && at + BytesPerPixel(format) <= |during|
    requires Overwrites(before, during, EncodeLine(format, pixels[..k]))
    requires after == during[..at] + Encode(format, pixels[k]) + during[at + BytesPerPixel(format)..]
    ensures Overwrites(before, after, EncodeLine(format, pixels[..k + 1]))
  {
    hide Encode, EncodeLine;
    EncodeExtend(format, pixels, k);
    var line, more := EncodeLine(format, pixels[..k]), Encode(format, pixels[k]);
    assert during[..at] == line;
    assert during[at + |more|..] == before[at + |more|..];
    assert after == (line + more) + before[|line + more|..];
  }

  lemma NothingStored(format: PixelFormat, before: seq<Byte>, pixels: seq<Pixel>)
    ensures Overwrites(before, before, EncodeLine(format, pixels[..0]))
  {
  }

  /** A native 32-bit store on a little-endian target. */
  method StoreWord(buffer: array<Byte>, at: nat, value: Pixel)
    requires at + 4 <= buffer.Length
    modifies buffer
    ensures buffer[..] == old(buffer[..])[..at] + Encode(ARGB8888, value) + old(buffer[..])[at + 4..]
  {
    buffer[at], buffer[at + 1] := ByteAt(value, 0), ByteAt(value, 8);
    buffer[at + 2], buffer[at + 3] := ByteAt(value, 16), ByteAt(value, 24);
  }

  /** Three single-byte stores: blue, green, red. */
  method StoreBgr(buffer: array<Byte>, at: nat, value: Pixel)
    requires at + 3 <= buffer.Length
    modifies buffer
    ensures buffer[..] == old(buffer[..])[..at] + Encode(RGB888, value) + old(buffer[..])[at + 3..]
  {
    buffer[at] := ByteAt(value, 0);
    buffer[at + 1] := ByteAt(value, 8);
    buffer[at + 2] := ByteAt(value, 16);
  }

  /** Stores pixel `k` of a line as a word behind the first `k` pixels. */
  method StoreNextWord(ghost before: seq<Byte>, ghost pixels: seq<Pixel>, ghost k: nat,
                       buffer: array<Byte>, at: nat, value: Pixel)
    requires k < |pixels| && pixels[k] == value && at == 4 * k && at + 4 <= buffer.Length
    requires Overwrites(before, buffer[..], EncodeLine(ARGB8888, pixels[..k]))
    modifies buffer
    ensures Overwrites(before, buffer[..], EncodeLine(ARGB8888, pixels[..k + 1]))
  {
    hide Encode, EncodeLine, Overwrites;
    ghost var during := buffer[..];
    StoreWord(buffer, at, value);
    StoreExtends(ARGB8888, before, during, buffer[..], pixels, k, at);
  }

  /** Stores pixel `k` of a line as three bytes behind the first `k` pixels. */
  method StoreNextBgr(ghost before: seq<Byte>, ghost pixels: seq<Pixel>, ghost k: nat,
                      buffer: array<Byte>, at: nat, value: Pixel)
    requires k < |pixels| && pixels[k] == value && at == 3 * k && at + 3 <= buffer.Length
    requires Overwrites(before, buffer[..], EncodeLine(RGB888, pixels[..k]))
    modifies buffer
    ensures Overwrites(before, buffer[..], EncodeLine(RGB888, pixels[..k + 1]))
  {
    hide Encode, EncodeLine, Overwrites;
    ghost var during := buffer[..];
    StoreBgr(buffer, at, value);
    StoreExtends(RGB888, before, during, buffer[..], pixels, k, at);
  }

  method FillColorArgb8888(color: Pixel, buffer: array<Byte>, size: nat)
    requires 4 * PixelsCovering(size, 4) <= buffer.Length
    modifies buffer
    ensures Overwrites(old(buffer[..]), buffer[..], EncodeLine(ARGB8888, Repeat(color, PixelsCovering(size, 4))))
  {
    hide EncodeLine, Overwrites, PixelsCovering;
    var idx := 0;
    ghost var n := 0;
    ghost var total := PixelsCovering(size, 4);
    ghost var all := Repeat(color, total);
    assert BytesPerPixel(ARGB8888) == 4;
    assert size <= 4 * total < size + 4 && 4 * total <= buffer.Length;
    NothingStored(ARGB8888, buffer[..], all);
    while idx < size
      invariant idx == 4 * n && n <= total
      invariant Overwrites(old(buffer[..]), buffer[..], EncodeLine(ARGB8888, all[..n]))
    {
      StoreNextWord(old(buffer[..]), all, n, buffer, idx, color);
      idx := idx + 4;
      n := n + 1;
    }
    assert n == total;
    assert all[..n] == all;
  }

  method FillColorRgb888(color: Pixel, buffer: array<Byte>, size: nat)
    requires 3 * PixelsCovering(size, 3) <= buffer.Length
    modifies buffer
    ensures Overwrites(old(buffer[..]), buffer[..], EncodeLine(RGB888, Repeat(color, PixelsCovering(size, 3))))
  {
    hide EncodeLine, Overwrites, PixelsCovering;
    var idx := 0;
    ghost var n := 0;
    ghost var total := PixelsCovering(size, 3);
    ghost var all := Repeat(color, total);
    assert BytesPerPixel(RGB888) == 3;
    assert size <= 3 * total < size + 3 && 3 * total <= buffer.Length;
    NothingStored(RGB888, buffer[..], all);
    while idx < size
      invariant idx == 3 * n && n <= total
      invariant Overwrites(old(buffer[..]), buffer[..], EncodeLine(RGB888, all[..n]))
    {
      StoreNextBgr(old(buffer[..]), all, n, buffer, idx, color);
      idx := idx + 3;
      n := n + 1;
    }
    assert n == total;
    assert all[..n] == all;
  }

  method FillLineArgb8888(src: seq<Pixel>, size: nat, buffer: array<Byte>)
    requires size <= |src| && 4 * size <= buffer.Length
    modifies buffer
    ensures Overwrites(old(buffer[..]), buffer[..], EncodeLine(ARGB8888, src[..size]))
  {
    hide Encode, EncodeLine, Overwrites;
    NothingStored(ARGB8888, buffer[..], src);
    for px := 0 to size
      invariant Overwrites(old(buffer[..]), buffer[..], EncodeLine(ARGB8888, src[..px]))
    {
      StoreNextWord(old(buffer[..]), src, px, buffer, px * 4, src[px]);
    }
  }

  method FillLineRgb888(src: seq<Pixel>, size: nat, buffer: array<Byte>)
    requires size <= |src| && 3 * size <= buffer.Length
    modifies buffer
    ensures Overwrites(old(buffer[..]), buffer[..], EncodeLine(RGB888, src[..size]))
  {
    hide Encode, EncodeLine, Overwrites;
    NothingStored(RGB888, buffer[..], src);
    for px := 0 to size
      invariant Overwrites(old(buffer[..]), buffer[..], EncodeLine(RGB888, src[..px]))
    {
      StoreNextBgr(old(buffer[..]), src, px, buffer, px * 3, src[px]);
    }
  }
}
