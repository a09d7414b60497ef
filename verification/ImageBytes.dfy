/** Images and image files byte by byte: what the bytes of a PNG's scanlines, of a .r565 file, of a canvas and of
    a framebuffer mean, in plain arithmetic on offsets. */
module ImageBytes {
  import opened ByteOrder
  import opened PngFilter

  /** Rows of `w` pixels of `channels` bytes each. */
  ghost predicate Shape(image: seq<Bytes>, w: nat, h: nat, channels: nat) {
    |image| == h && forall y: nat | y < h :: |image[y]| == w * channels
  }

  /** Byte `i` of row `y`; there are zeros above and to the left of the image. */
  function Sample(image: seq<Bytes>, y: int, i: int): byte {
    if 0 <= y < |image| && 0 <= i < |image[y]| then image[y][i] else 0
  }

  /** Byte `i` of row `y` stands in the stream under the filter type at the head of its scanline, which is `n`
      bytes long behind the filter type (RFC 2083, section 6). */
  ghost predicate ByteEncoded(z: Bytes, image: seq<Bytes>, n: nat, channels: nat, y: nat, i: nat) {
    var o := y * (n + 1);
    && o + 1 + i < |z|
    && Equation(z[o], z[o + 1 + i], Sample(image, y, i), Sample(image, y, i - channels), Sample(image, y - 1, i),
                Sample(image, y - 1, i - channels))
  }

  ghost predicate LineEncoded(z: Bytes, image: seq<Bytes>, n: nat, channels: nat, y: nat) {
    forall i: nat | i < n :: ByteEncoded(z, image, n, channels, y, i)
  }

  /** The stream begins with the scanlines of the image. */
  ghost predicate Scanlines(z: Bytes, image: seq<Bytes>, w: nat, h: nat, channels: nat) {
    var n := w * channels;
    && Shape(image, w, h, channels) && h * (n + 1) <= |z|
    && forall y: nat | y < h :: LineEncoded(z, image, n, channels, y)
  }

  /** The bytes are the word of the five, six and five high bits of red, green and blue, low byte first. */
  predicate Is565(lo: byte, hi: byte, r: byte, g: byte, b: byte) {
    var l: int, h: int, x: int, y: int, z: int := lo, hi, r, g, b;
    l + 0x100 * h == x / 8 * 0x800 + y / 4 * 0x20 + z / 8
  }

  /** Pixel (x, y) of the image is stored at `o`. */
  ghost predicate PixelStored(file: Bytes, o: int, image: seq<Bytes>, channels: nat, x: nat, y: nat) {
    var i := x * channels;
    && 0 <= o && o + 1 < |file|
    && Is565(file[o], file[o + 1], Sample(image, y, i), Sample(image, y, i + 1), Sample(image, y, i + 2))
  }

  /** And in a .r565 file `w` pixels wide that is row by row behind the header. */
  ghost predicate FilePixel(file: Bytes, image: seq<Bytes>, w: nat, channels: nat, x: nat, y: nat) {
    PixelStored(file, 16 + (y * w + x) * 2, image, channels, x, y)
  }

  /** The file is the complete .r565 file of the image. */
  ghost predicate IsR565(file: Bytes, image: seq<Bytes>, w: nat, h: nat, channels: nat) {
    && |file| == 16 + 2 * w * h
    && file[..4] == Ascii("R565")
    && Le(file[4..8]) == 1 && Le(file[8..12]) == w && Le(file[12..16]) == h
    && forall x: nat, y: nat | x < w && y < h :: FilePixel(file, image, w, channels, x, y)
  }

  /** The four bytes at `o` are the opaque pixel that `v` expands to: each of its fields with the high bits
      repeated below. */
  predicate ShowsWord(pix: Bytes, o: int, v: int) {
    var r, g, b := v / 0x800, v / 0x20 % 0x40, v % 0x20;
    && 0 <= o && o + 3 < |pix|
    && pix[o] == r * 8 + r / 4 && pix[o + 1] == g * 4 + g / 0x10 && pix[o + 2] == b * 8 + b / 4 && pix[o + 3] == 0xff
  }

  /** And that the word with these two bytes, low byte first, expands to. */
  predicate IsExpanded(pix: Bytes, o: int, lo: byte, hi: byte) {
    var l: int, h: int := lo, hi;
    ShowsWord(pix, o, l + 0x100 * h)
  }

  /** Pixel (x, y) of a canvas `w` wide is stored as its word at `o`. */
  ghost predicate CanvasStored(mem: Bytes, o: int, canvas: Bytes, w: nat, x: nat, y: nat) {
    var i := (y * w + x) * 4;
    0 <= o && o + 1 < |mem| && i + 2 < |canvas| && Is565(mem[o], mem[o + 1], canvas[i], canvas[i + 1], canvas[i + 2])
  }

  /** The word at `o` is shown as pixel (x, y) of a canvas `w` wide. */
  ghost predicate CanvasShows(canvas: Bytes, w: nat, x: nat, y: nat, mem: Bytes, o: int) {
    0 <= o && o + 1 < |mem| && IsExpanded(canvas, (y * w + x) * 4, mem[o], mem[o + 1])
  }
}
