/** The display device behind `display_write`: a framebuffer and the log of the writes it was sent. */
module Panels {
  import opened Words
  import opened Pixels
  import opened Frames

  datatype Orientation = Normal | Rotated90 | Rotated180 | Rotated270

  datatype Capabilities = Capabilities(xResolution: U16, yResolution: U16, format: PixelFormat,
                                             orientation: Orientation) {
    predicate Swapped() {
      orientation.Rotated90? || orientation.Rotated270?
    }

    /** The panel's extent in the coordinates that writes use. */
    function Width(): U16 {
      if Swapped() then yResolution else xResolution
    }

    function Height(): U16 {
      if Swapped() then xResolution else yResolution
    }
  }

  /** Upright and half-turned panels keep their extents, a quarter turn either way exchanges them. */
  lemma Turned(caps: Capabilities)
    ensures caps.(orientation := Normal).Width() == caps.(orientation := Rotated180).Width() == caps.xResolution
    ensures caps.(orientation := Normal).Height() == caps.(orientation := Rotated180).Height() == caps.yResolution
    ensures caps.(orientation := Rotated90).Width() == caps.(orientation := Rotated270).Width() == caps.yResolution
    ensures caps.(orientation := Rotated90).Height() == caps.(orientation := Rotated270).Height() == caps.xResolution
  {
  }

  /** `struct display_buffer_descriptor`. */
  datatype Descriptor = Descriptor(bufSize: nat, width: nat, height: nat, pitch: nat, frameIncomplete: bool)

  datatype Write = Write(x: nat, y: nat, desc: Descriptor)

  /** What the device demands of a write: it lies on the panel and its bytes lie in the buffer. */
  predicate Acceptable(caps: Capabilities, bufLength: nat, w: Write) {
    && w.x + w.desc.width <= caps.Width()
    && w.y + w.desc.height <= caps.Height()
    && w.desc.width <= w.desc.pitch
    && w.desc.bufSize == w.desc.pitch * w.desc.height * BytesPerPixel(caps.format)
    && w.desc.bufSize <= bufLength
  }

  function DecodedPixels(format: PixelFormat, bytes: seq<Byte>, n: nat): (pixels: seq<Pixel>)
    requires BytesPerPixel(format) * n <= |bytes|
    ensures |pixels| == n
    ensures forall k :: 0 <= k < n ==>
              BytesPerPixel(format) * (k + 1) <= |bytes| && pixels[k] == PixelAt(format, bytes, k)
  {
    seq(n, k requires 0 <= k < n => PixelAt(format, bytes, k))
  }

  class Panel {
    const caps: Capabilities
    var frame: Frame
    ghost var writes: seq<Write>

    ghost predicate Valid()
      reads this
    {
      && caps.Width() >= 1 && caps.Height() >= 1
      && Sized(frame, caps.Width(), caps.Height())
    }

    constructor (caps: Capabilities, frame: Frame)
      requires caps.Width() >= 1 && caps.Height() >= 1 && Sized(frame, caps.Width(), caps.Height())
      ensures Valid() && this.caps == caps && this.frame == frame && writes == []
    {
      this.caps := caps;
      this.frame := frame;
      writes := [];
    }

    /** `display_write`: every acceptable write is stored. */
    method DisplayWrite(x: nat, y: nat, desc: Descriptor, buffer: array<Byte>)
      requires Valid() && Acceptable(caps, buffer.Length, Write(x, y, desc))
      modifies this
      ensures Valid()
      ensures frame == Paint(old(frame), Rect(x, y, desc.width, desc.height),
                             Image(DecodedPixels(caps.format, buffer[..], desc.pitch * desc.height), desc.pitch))
      ensures writes == old(writes) + [Write(x, y, desc)]
    {
      frame := Paint(frame, Rect(x, y, desc.width, desc.height),
                     Image(DecodedPixels(caps.format, buffer[..], desc.pitch * desc.height), desc.pitch));
      writes := writes + [Write(x, y, desc)];
    }
  }
}
