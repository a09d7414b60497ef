/** Conversion of a PNG file into the flat .r565 format that the viewer pans around in. */
module PngToR565 {
  import opened ByteOrder
  import opened Rgb565
  import opened IdatReader
  import opened PngChunks
  import opened R565Rows
  import opened RowGrid
  import opened ImageBytes
  import opened PixelBytes
  import Filter = PngFilter

  const SIGNATURE: Bytes := [0x89, 0x50, 0x4e, 0x47, 0x0d, 0x0a, 0x1a, 0x0a]
  const IHDR: Bytes := [0x49, 0x48, 0x44, 0x52]

  /** What zlib makes of the joined IDAT bytes: a header error, or the bytes it can decompress. */
  datatype Inflated = BadHeader | Stream(bytes: Bytes)

  datatype Parsed = Good(layout: Layout) | Bad(error: Error)

  /** The checks on the image header: 8-bit RGB or RGBA, not interlaced, not empty. */
  function ParseIhdr(ihdr: Bytes): (p: Parsed)
    ensures p.Good? ==> p.layout.Valid()
  {
    if |ihdr| < 13 then Bad(Panic) else
      BeBound(ihdr[0..4]);
      BeBound(ihdr[4..8]);
      var layout := Layout(Be(ihdr[0..4]), Be(ihdr[4..8]), if ihdr[9] == 2 then 3 else 4);
      if !(ihdr[8] == 8 && (ihdr[9] == 2 || ihdr[9] == 6)) then Bad(Unsupported)
      else if ihdr[12] != 0 then Bad(Interlaced)
      else if layout.width == 0 || layout.height == 0 then Bad(BadDimensions)
      else Good(layout)
  }

  /** How far the signature and the image header get: a layout and the chunks after IHDR, or an error. */
  datatype Opened = Ready(layout: Layout, chunks: Bytes) | Stop(error: Error) {
    /** Parsing gave `p` and left `rest` unread. */
    ghost predicate Reads(p: Parsed, rest: Bytes) {
      match this
      case Ready(layout, chunks) => p == Good(layout) && rest == chunks
      case Stop(e) => p == Bad(e)
    }
  }

  function Open(file: Bytes): (o: Opened)
    ensures o.Ready? ==> o.layout.Valid()
  {
    if |file| < 8 then Stop(ReadError)
    else if file[..8] != SIGNATURE then Stop(NotPng)
    else if |file| < 16 then Stop(ReadError)
    else if file[8..][4..8] != IHDR then Stop(MissingIhdr)
    else OpenIhdr(file[16..], Be(file[8..][..4]))
  }

  function OpenIhdr(s: Bytes, ihdrLen: nat): (o: Opened)
    ensures o.Ready? ==> o.layout.Valid()
  {
    if |s| < ihdrLen then Stop(ReadError) else
      match ParseIhdr(s[..ihdrLen])
      case Bad(e) => Stop(e)
      case Good(layout) => Ready(layout, After(s, ihdrLen))
  }

  /** The conversion of any file, given what zlib does with any bytes. */
  function Convert(file: Bytes, inflate: Bytes -> Inflated): Result {
    match Open(file)
    case Stop(e) => Failed(e)
    case Ready(layout, chunks) =>
      match inflate(Payload(chunks))
      case BadHeader => Failed(BadZlibHeader)
      case Stream(z) => Converting(z, layout)
  }

  method ReadIhdr(br: BufReader, ihdrLen: nat) returns (p: Parsed)
    requires br.Valid()
    modifies br
    ensures br.Valid() && OpenIhdr(old(br.Rest()), ihdrLen).Reads(p, br.Rest())
  {
    ghost var s := br.Rest();
    var ihdr, err := br.ReadFull(ihdrLen);
    if err != Nil {
      return Bad(ReadError);
    }
    var _ := br.Skip(4);
    assert br.Rest() == After(s, ihdrLen);
    p := ParseIhdr(ihdr);
  }

  method ReadOpening(br: BufReader) returns (p: Parsed)
    requires br.Valid() && br.Rest() == br.data
    modifies br
    ensures br.Valid() && Open(br.data).Reads(p, br.Rest())
  {
    var sig, err := br.ReadFull(8);
    if err != Nil {
      return Bad(ReadError);
    }
    if sig != SIGNATURE {
      return Bad(NotPng);
    }
    var ihdrLen, typ;
    ihdrLen, typ, err := br.ReadHeader();
    if err != Nil {
      return Bad(ReadError);
    }
    if typ != IHDR {
      return Bad(MissingIhdr);
    }
    assert br.Rest() == br.data[16..];
    p := ReadIhdr(br, ihdrLen);
  }

  method PNGToR565(file: Bytes, inflate: Bytes -> Inflated) returns (r: Result)
    ensures r == Convert(file, inflate)
  {
    var br := new BufReader(file);
    var p := ReadOpening(br);
    if p.Bad? {
      return Failed(p.error);
    }
    var idat := new IdatReader(br);
    var compressed, _ := Drain(idat);
    var inflated := inflate(compressed);
    if inflated.BadHeader? {
      return Failed(BadZlibHeader);
    }
    r := ConvertRows(inflated.bytes, p.layout);
    RowLoop(inflated.bytes, p.layout);
  }

  // ---- what the output is ----

  /** The output is a complete .r565 file of the image with these rows. */
  ghost predicate Holds(out: Bytes, layout: Layout, image: Image)
    requires layout.Valid() && |image| == layout.height && AllOfWidth(image, layout.RowBytes())
  {
    HasLayout(out, layout) && HasPixels(out, layout, image)
  }

  ghost predicate HasLayout(out: Bytes, layout: Layout) {
    |out| == HEADER_SIZE + 2 * layout.width * layout.height && out[..HEADER_SIZE] == Header(layout)
  }

  ghost predicate HasPixels(out: Bytes, layout: Layout, image: Image)
    requires layout.Valid() && |image| == layout.height && AllOfWidth(image, layout.RowBytes())
  {
    forall x: nat, y: nat | x < layout.width && y < layout.height ::
      StoredAt(out, Offset(layout.width, x, y), Pack(PixelOf(image, layout, x, y)))
  }

  function PixelOf(image: Image, layout: Layout, x: nat, y: nat): Rgb
    requires layout.Valid() && |image| == layout.height && AllOfWidth(image, layout.RowBytes())
    requires x < layout.width && y < layout.height
  {
    assert image[y] in image;
    Pixel(image[y], layout, x)
  }

  function IhdrBody(layout: Layout): (s: Bytes)
    ensures |s| == 13
  {
    BeBytes(layout.width, 4) + BeBytes(layout.height, 4) + [8, if layout.channels == 3 then 2 else 6, 0, 0, 0]
  }

  function PngFile(layout: Layout, crc: Bytes, chunks: seq<Chunk>): Bytes {
    SIGNATURE + (Chunk(IHDR, IhdrBody(layout), crc).Serialize() + Serialize(chunks))
  }

  lemma ParseIhdrBody(layout: Layout)
    requires layout.Valid()
    ensures ParseIhdr(IhdrBody(layout)) == Good(layout)
  {
    BeRoundTrip(layout.width, 4);
    BeRoundTrip(layout.height, 4);
    var s := IhdrBody(layout);
    assert s[0..4] == BeBytes(layout.width, 4);
    assert s[4..8] == BeBytes(layout.height, 4);
  }

  /** Converting a PNG file gets as far as the row loop, with the stream zlib makes of the IDATs. */
  lemma ConvertPngFile(layout: Layout, crc: Bytes, chunks: seq<Chunk>, inflate: Bytes -> Inflated, z: Bytes)
    requires layout.Valid() && |crc| == 4 && Valid(chunks)
    requires inflate(IdatOf(chunks)) == Stream(z)
    ensures Convert(PngFile(layout, crc, chunks), inflate) == Converting(z, layout)
  {
    OpenPngFile(layout, crc, chunks);
    PayloadOfChunks(chunks, []);
    assert Serialize(chunks) + [] == Serialize(chunks);
  }

  lemma OpenPngFile(layout: Layout, crc: Bytes, chunks: seq<Chunk>)
    requires layout.Valid() && |crc| == 4
    ensures Open(PngFile(layout, crc, chunks)) == Ready(layout, Serialize(chunks))
  {
    var file := PngFile(layout, crc, chunks);
    var ihdr := Chunk(IHDR, IhdrBody(layout), crc);
    var rest := Serialize(chunks);
    assert Pow256(4) == 0x1_0000_0000;
    SerializedHead(ihdr, rest);
    assert file[..8] == SIGNATURE;
    assert file[8..] == ihdr.Serialize() + rest;
    assert file[16..] == file[8..][8..];
    assert file[16..][..13] == Take(file[16..], 13) == IhdrBody(layout);
    ParseIhdrBody(layout);
  }

  /** How the compressed stream is cut into chunks, and what other chunks stand between them, has no
      influence on the result, whatever zlib makes of the stream. */
  lemma ChunkingIrrelevant(layout: Layout, crc: Bytes, a: seq<Chunk>, b: seq<Chunk>, inflate: Bytes -> Inflated)
    requires layout.Valid() && |crc| == 4 && Valid(a) && Valid(b) && IdatOf(a) == IdatOf(b)
    ensures Convert(PngFile(layout, crc, a), inflate) == Convert(PngFile(layout, crc, b), inflate)
  {
    hide PngFile, Open, Payload;
    OpenPngFile(layout, crc, a);
    OpenPngFile(layout, crc, b);
    PayloadOfChunks(a, []);
    PayloadOfChunks(b, []);
    assert Serialize(a) + [] == Serialize(a) && Serialize(b) + [] == Serialize(b);
  }

  // ---- streams and files, byte by byte ----

  /** The equations of a scanline are those of its bytes in the stream. */
  lemma LineEncodedIff(z: Bytes, image: Image, layout: Layout, y: nat)
    requires layout.Valid() && |image| == layout.height && AllOfWidth(image, layout.RowBytes()) && y < layout.height
    requires Start(y + 1, layout.RowBytes() + 1) <= |z|
    ensures Filter.Equations(Line(z, layout, y)[0], Line(z, layout, y)[1..], image[y], RowAbove(image, layout, y),
                             layout.channels)
       <==> LineEncoded(z, image, layout.RowBytes(), layout.channels, y)
  {
    hide Filter.EquationAt, ByteEncoded, Start, Line, RowAbove, Layout.RowBytes;
    WidthsOf(image, layout, y);
    forall i: nat | i < layout.RowBytes()
      ensures Filter.EquationAt(Line(z, layout, y)[0], Line(z, layout, y)[1..], image[y], RowAbove(image, layout, y),
                                layout.channels, i)
         <==> ByteEncoded(z, image, layout.RowBytes(), layout.channels, y, i)
    {
      ByteIff(z, image, layout, y, i);
    }
  }

  lemma ByteIff(z: Bytes, image: Image, layout: Layout, y: nat, i: nat)
    requires layout.Valid() && |image| == layout.height && AllOfWidth(image, layout.RowBytes()) && y < layout.height
    requires Start(y + 1, layout.RowBytes() + 1) <= |z| && i < layout.RowBytes()
    ensures |image[y]| == |RowAbove(image, layout, y)| == layout.RowBytes()
    ensures Filter.EquationAt(Line(z, layout, y)[0], Line(z, layout, y)[1..], image[y], RowAbove(image, layout, y),
                              layout.channels, i)
       <==> ByteEncoded(z, image, layout.RowBytes(), layout.channels, y, i)
  {
    hide Filter.Equation, Start, Line, RowAbove, Sample;
    WidthsOf(image, layout, y);
    LineAt(z, layout, y);
    SamplesOf(image, layout, y, i);
    hide Layout.RowBytes;
    var line, o := Line(z, layout, y), y * (layout.RowBytes() + 1);
    assert line[1..][i] == line[i + 1] == z[o + (i + 1)];
    assert line[0] == z[o + 0];
  }

  /** A decoded scanline is row `y` of the image exactly when its bytes solve the filter equations. */
  lemma LineIff(z: Bytes, image: Image, layout: Layout, y: nat)
    requires layout.Valid() && |image| == layout.height && AllOfWidth(image, layout.RowBytes()) && y < layout.height
    requires Start(y + 1, layout.RowBytes() + 1) <= |z|
    requires Start(y, layout.RowBytes() + 1) <= |z| && Prior(z, layout, y) == RowAbove(image, layout, y)
    ensures Row(z, layout, y) == image[y] <==> LineEncoded(z, image, layout.RowBytes(), layout.channels, y)
  {
    hide Filter.Equations, Filter.Decode, Filter.PredictorOf, Start, Prior, Line, LineEncoded, RowAbove;
    var line := Line(z, layout, y);
    assert image[y] in image;
    LineEncodedIff(z, image, layout, y);
    Filter.EquationsIff(line[0], line[1..], image[y], RowAbove(image, layout, y), layout.channels);
  }

  lemma LineAt(z: Bytes, layout: Layout, y: nat)
    requires layout.Valid() && Start(y + 1, layout.RowBytes() + 1) <= |z|
    ensures var n, line := layout.RowBytes(), Line(z, layout, y);
            && y * (n + 1) + n + 1 <= |z|
            && forall i | 0 <= i <= n :: line[i] == z[y * (n + 1) + i]
  {
    StartIsProduct(y, layout.RowBytes() + 1);
  }

  lemma WidthsOf(image: Image, layout: Layout, y: nat)
    requires layout.Valid() && |image| == layout.height && AllOfWidth(image, layout.RowBytes()) && y < layout.height
    ensures |image[y]| == |RowAbove(image, layout, y)| == layout.RowBytes()
  {
    assert image[y] in image;
    if y > 0 {
      assert image[y - 1] in image;
    }
  }

  /** Samples outside the image are zeros, as the buffer above the first row is. */
  lemma SamplesOf(image: Image, layout: Layout, y: nat, i: nat)
    requires layout.Valid() && |image| == layout.height && AllOfWidth(image, layout.RowBytes())
    requires y < layout.height && i < layout.RowBytes()
    ensures i < |image[y]| && i < |RowAbove(image, layout, y)|
    ensures var c, above := layout.channels, RowAbove(image, layout, y);
            && Sample(image, y, i) == image[y][i]
            && Sample(image, y, i - c) == (if i < c then 0 else image[y][i - c])
            && Sample(image, y - 1, i) == above[i]
            && Sample(image, y - 1, i - c) == if i < c then 0 else above[i - c]
  {
    assert image[y] in image;
    if y > 0 {
      assert image[y - 1] in image;
    }
  }

  /** The first `k` rows are decoded as those of the image. */
  ghost predicate RowsDecoded(z: Bytes, image: Image, layout: Layout, k: nat)
    requires layout.Valid() && |image| == layout.height && k <= layout.height
    requires Start(layout.height, layout.RowBytes() + 1) <= |z|
  {
    forall y: nat | y < k :: Rows(z, layout)[y] == image[y]
  }

  lemma RowsAt(z: Bytes, layout: Layout, y: nat)
    requires layout.Valid() && y < layout.height && Start(layout.height, layout.RowBytes() + 1) <= |z|
    ensures Start(y, layout.RowBytes() + 1) <= |z| && Start(y + 1, layout.RowBytes() + 1) <= |z|
    ensures Rows(z, layout)[y] == Row(z, layout, y)
    ensures y > 0 ==> Prior(z, layout, y) == Rows(z, layout)[y - 1]
  {
    hide Row, Prior, Start, Layout.RowBytes;
    RowEnd(y, layout.height, layout.RowBytes() + 1);
    NextRow(z, layout, y);
    if y > 0 {
      NextRow(z, layout, y - 1);
    }
  }

  lemma RowIff(z: Bytes, image: Image, layout: Layout, y: nat)
    requires layout.Valid() && |image| == layout.height && AllOfWidth(image, layout.RowBytes()) && y < layout.height
    requires Start(layout.height, layout.RowBytes() + 1) <= |z| && RowsDecoded(z, image, layout, y)
    ensures Rows(z, layout)[y] == image[y] <==> LineEncoded(z, image, layout.RowBytes(), layout.channels, y)
  {
    hide LineEncoded, Row, Line, Prior, Rows, Start;
    RowsAt(z, layout, y);
    PriorIs(z, image, layout, y);
    LineIff(z, image, layout, y);
  }

  lemma {:induction false} RowsIff(z: Bytes, image: Image, layout: Layout, k: nat)
    requires layout.Valid() && |image| == layout.height && AllOfWidth(image, layout.RowBytes()) && k <= layout.height
    requires Start(layout.height, layout.RowBytes() + 1) <= |z|
    ensures RowsDecoded(z, image, layout, k)
       <==> forall y: nat | y < k :: LineEncoded(z, image, layout.RowBytes(), layout.channels, y)
  {
    hide LineEncoded, Rows, Start;
    if k > 0 {
      RowsIff(z, image, layout, k - 1);
      if RowsDecoded(z, image, layout, k - 1) {
        RowIff(z, image, layout, k - 1);
      }
    }
  }

  lemma PriorIs(z: Bytes, image: Image, layout: Layout, y: nat)
    requires layout.Valid() && |image| == layout.height && y < layout.height
    requires Start(y, layout.RowBytes() + 1) <= |z|
    requires y > 0 ==> Prior(z, layout, y) == image[y - 1]
    ensures Prior(z, layout, y) == RowAbove(image, layout, y)
  {}

  /** The image that the row loop decodes is the one whose scanlines the stream begins with, and no other. */
  lemma ScanlinesIff(z: Bytes, image: Image, layout: Layout)
    requires layout.Valid() && Start(layout.height, layout.RowBytes() + 1) <= |z|
    requires |image| == layout.height && AllOfWidth(image, layout.RowBytes())
    ensures Scanlines(z, image, layout.width, layout.height, layout.channels) <==> Rows(z, layout) == image
  {
    hide LineEncoded, Rows;
    StartIsProduct(layout.width, layout.channels);
    StartIsProduct(layout.height, layout.RowBytes() + 1);
    ShapeOf(image, layout);
    RowsIff(z, image, layout, layout.height);
  }

  lemma ShapeOf(image: Image, layout: Layout)
    ensures Shape(image, layout.width, layout.height, layout.channels)
       <==> |image| == layout.height && AllOfWidth(image, layout.RowBytes())
  {
    StartIsProduct(layout.width, layout.channels);
    if |image| == layout.height && AllOfWidth(image, layout.RowBytes()) {
      assert forall y: nat | y < layout.height :: image[y] in image;
    }
  }

  lemma HeaderFields(layout: Layout)
    requires layout.Valid()
    ensures var h := Header(layout);
            && h[..4] == Ascii("R565") && Le(h[4..8]) == 1
            && Le(h[8..12]) == layout.width && Le(h[12..16]) == layout.height
  {
    hide LeBytes, Le;
    FourParts(MAGIC, LeBytes(1, 4), LeBytes(layout.width, 4), LeBytes(layout.height, 4));
    assert MAGIC == Ascii("R565");
    assert Pow256(4) == 0x1_0000_0000;
    LeRoundTrip(1, 4);
    LeRoundTrip(layout.width, 4);
    LeRoundTrip(layout.height, 4);
  }

  lemma FourParts(a: Bytes, b: Bytes, c: Bytes, d: Bytes)
    requires |a| == |b| == |c| == |d| == 4
    ensures var h := a + b + c + d; h[..4] == a && h[4..8] == b && h[8..12] == c && h[12..16] == d
  {
    var h := a + b + c + d;
    assert forall i | 0 <= i < 4 :: h[i] == a[i] && h[4 + i] == b[i] && h[8 + i] == c[i] && h[12 + i] == d[i];
  }

  lemma HeaderIs(out: Bytes, layout: Layout)
    requires layout.Valid() && HasLayout(out, layout)
    ensures out[..4] == Ascii("R565") && Le(out[4..8]) == 1
    ensures Le(out[8..12]) == layout.width && Le(out[12..16]) == layout.height
  {
    hide Header, Le;
    HeaderFields(layout);
    SliceOfSlice(out, 0, HEADER_SIZE, 0, 4);
    SliceOfSlice(out, 0, HEADER_SIZE, 4, 8);
    SliceOfSlice(out, 0, HEADER_SIZE, 8, 12);
    SliceOfSlice(out, 0, HEADER_SIZE, 12, 16);
  }

  /** The word of a source pixel, wherever it is stored. */
  lemma PixelWord(file: Bytes, o: nat, layout: Layout, image: Image, x: nat, y: nat)
    requires layout.Valid() && |image| == layout.height && AllOfWidth(image, layout.RowBytes())
    requires x < layout.width && y < layout.height
    requires o + 2 <= |file| && file[o..o + 2] == LoHi(Pack(PixelOf(image, layout, x, y)))
    ensures PixelStored(file, o, image, layout.channels, x, y)
  {
    var c, v := layout.channels, Pack(PixelOf(image, layout, x, y));
    assert image[y] in image;
    RowEnd(x, layout.width, c);
    StartIsProduct(x, c);
    var i := x * c;
    assert Sample(image, y, i) == image[y][i] && Sample(image, y, i + 1) == image[y][i + 1]
        && Sample(image, y, i + 2) == image[y][i + 2];
    hide Pack, Start, Lo, Hi, Is565;
    TwoOf(file, o, LoHi(v));
    WordIs565(image[y][i], image[y][i + 1], image[y][i + 2]);
  }

  lemma PixelIs(out: Bytes, layout: Layout, image: Image, x: nat, y: nat)
    requires layout.Valid() && |image| == layout.height && AllOfWidth(image, layout.RowBytes())
    requires x < layout.width && y < layout.height
    requires StoredAt(out, Offset(layout.width, x, y), Pack(PixelOf(image, layout, x, y)))
    ensures FilePixel(out, image, layout.width, layout.channels, x, y)
  {
    hide Pack, PixelStored;
    OffsetIs(layout.width, x, y);
    PixelWord(out, Offset(layout.width, x, y), layout, image, x, y);
  }

  lemma OffsetIs(width: int, x: int, y: int)
    ensures Offset(width, x, y) == 16 + (y * width + x) * 2
  {}

  lemma HoldsIs(out: Bytes, layout: Layout, image: Image)
    requires layout.Valid() && |image| == layout.height && AllOfWidth(image, layout.RowBytes())
    requires Holds(out, layout, image)
    ensures IsR565(out, image, layout.width, layout.height, layout.channels)
  {
    hide StoredAt, FilePixel, PixelOf, Offset, Pack, Header, Le;
    HeaderIs(out, layout);
    forall x: nat, y: nat | x < layout.width && y < layout.height
      ensures FilePixel(out, image, layout.width, layout.channels, x, y)
    {
      PixelIs(out, layout, image, x, y);
    }
  }

  /** The whole conversion: for every image, every stream that begins with its scanlines, under any filters,
      every cutting of the compressed stream into chunks and every zlib that undoes the compression, the
      output is the .r565 file of the image. */
  lemma EndToEnd(image: Image, layout: Layout, crc: Bytes, chunks: seq<Chunk>, inflate: Bytes -> Inflated, z: Bytes)
      returns (out: Bytes)
    requires layout.Valid() && |crc| == 4 && Valid(chunks) && inflate(IdatOf(chunks)) == Stream(z)
    requires Scanlines(z, image, layout.width, layout.height, layout.channels)
    ensures Convert(PngFile(layout, crc, chunks), inflate) == Converted(layout.width, layout.height, out)
    ensures IsR565(out, image, layout.width, layout.height, layout.channels)
    ensures |image| == layout.height && AllOfWidth(image, layout.RowBytes()) && Holds(out, layout, image)
  {
    hide Convert, PngFile, Body, Holds, Rows, LineEncoded, IsR565, Header;
    ConvertPngFile(layout, crc, chunks, inflate, z);
    StartIsProduct(layout.width, layout.channels);
    StartIsProduct(layout.height, layout.RowBytes() + 1);
    ShapeOf(image, layout);
    ScanlinesIff(z, image, layout);
    ConvertingHolds(z, layout);
    out := Header(layout) + Body(z, layout, layout.height);
    HoldsIs(out, layout, image);
  }

  /** Every image has such a stream for every choice of filters, with anything behind it. */
  lemma EncodedScanlines(image: Image, filters: Bytes, layout: Layout, tail: Bytes)
    requires Fits(image, filters, layout)
    ensures Scanlines(Flat(EncodedLines(image, filters, layout)) + tail, image, layout.width, layout.height,
                      layout.channels)
  {
    hide Scanlines, Rows, Flat, EncodedLines;
    RowsOfEncoded(image, filters, layout, tail);
    ScanlinesIff(Flat(EncodedLines(image, filters, layout)) + tail, image, layout);
  }

  /** A stream that is long enough becomes a complete file of the rows it encodes. */
  lemma ConvertingHolds(z: Bytes, layout: Layout)
    requires layout.Valid() && Start(layout.height, layout.RowBytes() + 1) <= |z|
    ensures Holds(Header(layout) + Body(z, layout, layout.height), layout, Rows(z, layout))
  {
    FileSize(z, layout);
    var out, image := Header(layout) + Body(z, layout, layout.height), Rows(z, layout);
    forall x: nat, y: nat | x < layout.width && y < layout.height
      ensures StoredAt(out, Offset(layout.width, x, y), Pack(PixelOf(image, layout, x, y)))
    {
      BodyPixel(z, layout, x, y);
    }
  }

  /** Whatever the input, a success is the file of the one image whose scanlines the stream begins with. */
  lemma SuccessHolds(file: Bytes, inflate: Bytes -> Inflated) returns (image: Image)
    requires Convert(file, inflate).Converted?
    ensures Open(file).Ready? && inflate(Payload(Open(file).chunks)).Stream?
    ensures var r, layout, z := Convert(file, inflate), Open(file).layout, inflate(Payload(Open(file).chunks)).bytes;
            && r.width == layout.width && r.height == layout.height
            && Scanlines(z, image, r.width, r.height, layout.channels)
            && IsR565(r.file, image, r.width, r.height, layout.channels)
  {
    hide Body, Holds, Rows, Open, Payload, Scanlines, IsR565, Header;
    var layout := Open(file).layout;
    var z := inflate(Payload(Open(file).chunks)).bytes;
    image := Rows(z, layout);
    ConvertingHolds(z, layout);
    ScanlinesIff(z, image, layout);
    HoldsIs(Header(layout) + Body(z, layout, layout.height), layout, image);
  }

  /** The signature, then IHDR and at least 13 bytes of it. */
  ghost predicate HasIhdr(file: Bytes) {
    && |file| >= 16 && file[..8] == [0x89] + Ascii("PNG") + [13, 10, 26, 10] && file[12..16] == Ascii("IHDR")
    && 13 <= Be(file[8..12]) <= |file| - 16
  }

  /** Which files get as far as the compressed stream, and what is read off them: eight bits of red, green and
      blue, with or without alpha, not interlaced, not empty. */
  lemma OpenIff(file: Bytes)
    ensures Open(file).Ready? <==>
              && HasIhdr(file) && file[24] == 8 && (file[25] == 2 || file[25] == 6) && file[28] == 0
              && Be(file[16..20]) > 0 && Be(file[20..24]) > 0
    ensures Open(file).Ready? ==>
              var o := Open(file);
              && o.layout.width == Be(file[16..20]) && o.layout.height == Be(file[20..24])
              && o.layout.channels == (if file[25] == 2 then 3 else 4)
              && o.chunks == After(file[16..], Be(file[8..12]))
  {
    hide Be;
    if |file| >= 16 {
      assert file[8..][4..8] == file[12..16] && file[8..][..4] == file[8..12];
      var s, n := file[16..], Be(file[8..12]);
      assert SIGNATURE == [0x89] + Ascii("PNG") + [13, 10, 26, 10] && IHDR == Ascii("IHDR");
      if 13 <= n <= |s| {
        var ihdr := s[..n];
        assert ihdr[0..4] == file[16..20] && ihdr[4..8] == file[20..24];
        assert ihdr[8] == file[24] && ihdr[9] == file[25] && ihdr[12] == file[28];
      }
    }
  }

  /** Why a file is refused there: what it is not, what it does not support and what is missing. */
  lemma StopsWith(file: Bytes)
    ensures Open(file) == Stop(NotPng) <==> |file| >= 8 && file[..8] != [0x89] + Ascii("PNG") + [13, 10, 26, 10]
    ensures Open(file) == Stop(MissingIhdr) <==>
              |file| >= 16 && file[..8] == [0x89] + Ascii("PNG") + [13, 10, 26, 10] && file[12..16] != Ascii("IHDR")
    ensures HasIhdr(file) ==>
              var deep, w, h := file[24] == 8 && (file[25] == 2 || file[25] == 6), Be(file[16..20]), Be(file[20..24]);
              && (Open(file) == Stop(Unsupported) <==> !deep)
              && (Open(file) == Stop(Interlaced) <==> deep && file[28] != 0)
              && (Open(file) == Stop(BadDimensions) <==> deep && file[28] == 0 && (w == 0 || h == 0))
    ensures !HasIhdr(file) ==> Open(file) in {Stop(NotPng), Stop(MissingIhdr), Stop(Panic), Stop(ReadError)}
  {
    hide Be;
    assert SIGNATURE == [0x89] + Ascii("PNG") + [13, 10, 26, 10] && IHDR == Ascii("IHDR");
    if |file| >= 16 {
      assert file[8..][4..8] == file[12..16] && file[8..][..4] == file[8..12];
      var s, n := file[16..], Be(file[8..12]);
      if 13 <= n <= |s| {
        var ihdr := s[..n];
        assert ihdr[0..4] == file[16..20] && ihdr[4..8] == file[20..24];
        assert ihdr[8] == file[24] && ihdr[9] == file[25] && ihdr[12] == file[28];
      }
    }
  }
}
