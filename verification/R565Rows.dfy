/** The row loop of the PNG to .r565 conversion. */
module R565Rows {
  import opened ByteOrder
  import opened Rgb565
  import opened RowGrid
  import Filter = PngFilter

  const MAGIC: Bytes := [0x52, 0x35, 0x36, 0x35]
  const HEADER_SIZE := 16

  /** Panic stands for the run-time error on an IHDR of fewer than 13 bytes. */
  datatype Error = ReadError | NotPng | MissingIhdr | Panic | Unsupported | Interlaced | BadDimensions
                 | BadZlibHeader | RowFilter(y: nat) | RowData(y: nat)

  datatype Result = Converted(width: nat, height: nat, file: Bytes) | Failed(error: Error)

  datatype Layout = Layout(width: nat, height: nat, channels: nat) {
    ghost predicate Valid() {
      0 < width < Pow256(4) && 0 < height < Pow256(4) && (channels == 3 || channels == 4)
    }

    /** width * channels */
    function RowBytes(): nat {
      Start(width, channels)
    }
  }

  // ---- what the scanlines mean ----

  function Zeros(n: nat): Bytes {
    seq(n, _ => 0)
  }

  /** How many whole rows of `n` bytes there are in `len` bytes. */
  function RowsIn(len: nat, n: nat): (q: nat)
    requires n > 0
    ensures Start(q, n) <= len < Start(q + 1, n)
  {
    if len < n then 0 else
      RowsIn(len - n, n) + 1
  }

  /** The scanline before row `y`: all zeros above the first row. */
  function Prior(z: Bytes, layout: Layout, y: nat): (prior: Bytes)
    requires layout.Valid() && Start(y, layout.RowBytes() + 1) <= |z|
    ensures |prior| == layout.RowBytes()
    decreases y, 0
  {
    if y == 0 then Zeros(layout.RowBytes()) else
      Row(z, layout, y - 1)
  }

  /** A scanline: the filter type byte and the filtered row. */
  function Line(z: Bytes, layout: Layout, y: nat): (line: Bytes)
    requires layout.Valid() && Start(y + 1, layout.RowBytes() + 1) <= |z|
    ensures |line| == layout.RowBytes() + 1
  {
    var n := layout.RowBytes() + 1;
    z[Start(y, n)..Start(y, n) + n]
  }

  function Unfiltered(line: Bytes, prior: Bytes, bpp: nat): (row: Bytes)
    requires |line| == |prior| + 1 && 1 <= bpp
    ensures |row| == |prior|
  {
    Filter.Decode(Filter.PredictorOf(line[0]), line[1..], prior, bpp)
  }

  /** Row `y` of the image that the decompressed stream `z` encodes. */
  function Row(z: Bytes, layout: Layout, y: nat): (row: Bytes)
    requires layout.Valid() && Start(y + 1, layout.RowBytes() + 1) <= |z|
    ensures |row| == layout.RowBytes()
    decreases y, 1
  {
    Unfiltered(Line(z, layout, y), Prior(z, layout, y), layout.channels)
  }

  function Pixel(row: Bytes, layout: Layout, x: nat): Rgb
    requires layout.Valid() && |row| == layout.RowBytes() && x < layout.width
  {
    RowEnd(x, layout.width, layout.channels);
    var o := Start(x, layout.channels);
    Rgb(row[o], row[o + 1], row[o + 2])
  }

  /** The first `n` pixels of a row of the output file. */
  function Row565To(row: Bytes, layout: Layout, n: nat): (s: Bytes)
    requires layout.Valid() && |row| == layout.RowBytes() && n <= layout.width
    ensures |s| == 2 * n
  {
    if n == 0 then [] else Row565To(row, layout, n - 1) + LoHi(Pack(Pixel(row, layout, n - 1)))
  }

  function Row565(row: Bytes, layout: Layout): (s: Bytes)
    requires layout.Valid() && |row| == layout.RowBytes()
    ensures |s| == layout.width * 2
  {
    Row565To(row, layout, layout.width)
  }

  lemma {:induction false} Row565At(row: Bytes, layout: Layout, n: nat, x: nat)
    requires layout.Valid() && |row| == layout.RowBytes() && x < n <= layout.width
    ensures Row565To(row, layout, n)[2 * x..2 * x + 2] == LoHi(Pack(Pixel(row, layout, x)))
  {
    hide Pack, Pixel;
    if x < n - 1 {
      Row565At(row, layout, n - 1, x);
      var before := Row565To(row, layout, n - 1);
      assert Row565To(row, layout, n)[2 * x..2 * x + 2] == before[2 * x..2 * x + 2];
    }
  }

  /** The decoded rows of a stream. */
  function Rows(z: Bytes, layout: Layout): (rows: seq<Bytes>)
    requires layout.Valid() && Start(layout.height, layout.RowBytes() + 1) <= |z|
    ensures |rows| == layout.height && AllOfWidth(rows, layout.RowBytes())
  {
    seq(layout.height, y requires 0 <= y < layout.height =>
      RowEnd(y, layout.height, layout.RowBytes() + 1);
      Row(z, layout, y))
  }

  /** The first `n` rows of the output file. */
  function Rows565(z: Bytes, layout: Layout, n: nat): (rows: seq<Bytes>)
    requires layout.Valid() && Start(n, layout.RowBytes() + 1) <= |z|
    ensures |rows| == n
  {
    if n == 0 then [] else Rows565(z, layout, n - 1) + [Row565(Row(z, layout, n - 1), layout)]
  }

  lemma {:induction false} Rows565At(z: Bytes, layout: Layout, n: nat, y: nat)
    requires layout.Valid() && Start(n, layout.RowBytes() + 1) <= |z| && y < n
    ensures Start(y + 1, layout.RowBytes() + 1) <= |z|
    ensures Rows565(z, layout, n)[y] == Row565(Row(z, layout, y), layout)
  {
    hide Row, Row565;
    RowEnd(y, n, layout.RowBytes() + 1);
    if y < n - 1 {
      Rows565At(z, layout, n - 1, y);
    }
  }

  lemma {:induction false} Rows565Width(z: Bytes, layout: Layout, n: nat)
    requires layout.Valid() && Start(n, layout.RowBytes() + 1) <= |z|
    ensures AllOfWidth(Rows565(z, layout, n), layout.width * 2)
  {
    hide Row;
    if n > 0 {
      Rows565Width(z, layout, n - 1);
    }
  }

  function Body(z: Bytes, layout: Layout, n: nat): Bytes
    requires layout.Valid() && Start(n, layout.RowBytes() + 1) <= |z|
  {
    Flat(Rows565(z, layout, n))
  }

  /** One more row of the image and of the output. */
  lemma NextRow(z: Bytes, layout: Layout, y: nat)
    requires layout.Valid() && Start(y + 1, layout.RowBytes() + 1) <= |z|
    ensures Start(y, layout.RowBytes() + 1) <= |z|
    ensures Prior(z, layout, y + 1) == Row(z, layout, y)
         == Unfiltered(Line(z, layout, y), Prior(z, layout, y), layout.channels)
    ensures Body(z, layout, y + 1) == Body(z, layout, y) + Row565(Row(z, layout, y), layout)
  {
    hide Unfiltered, Row565;
    var rows := Rows565(z, layout, y + 1);
    assert rows[..y] == Rows565(z, layout, y);
  }

  function Header(layout: Layout): (s: Bytes)
    ensures |s| == HEADER_SIZE
  {
    MAGIC + LeBytes(1, 4) + LeBytes(layout.width, 4) + LeBytes(layout.height, 4)
  }

  // ---- the row loop ----

  /** binary.LittleEndian.PutUint16(a[i:], v) */
  method PutUint16(a: array<byte>, i: nat, v: word)
    requires i + 1 < a.Length
    modifies a
    ensures a[..i + 2] == old(a[..i]) + LoHi(v) && a[i + 2..] == old(a[i + 2..])
  {
    a[i] := Lo(v);
    a[i + 1] := Hi(v);
  }

  /** The inner loop: packs one row into the output buffer. */
  method PackPixels(cur: array<byte>, row565: array<byte>, layout: Layout)
    requires layout.Valid() && cur.Length == layout.RowBytes() && row565.Length == layout.width * 2
    requires cur != row565
    modifies row565
    ensures row565[..] == Row565(cur[..], layout)
  {
    hide Pack;
    ghost var row := cur[..];
    for x := 0 to layout.width
      invariant cur[..] == row
      invariant row565[..2 * x] == Row565To(row, layout, x)
    {
      RowEnd(x, layout.width, layout.channels);
      var o := RowOffset(x, layout.channels);
      var c := Rgb(cur[o], cur[o + 1], cur[o + 2]);
      assert c == Pixel(row, layout, x);
      PutUint16(row565, 2 * x, Pack(c));
    }
    assert row565[..2 * layout.width] == row565[..];
  }

  /** The body of the row loop: fills `cur` with the row that a scanline encodes, given the row
      above in `prev`, and packs it. */
  method ConvertRow(line: Bytes, cur: array<byte>, prev: array<byte>, row565: array<byte>, layout: Layout)
    requires layout.Valid() && |line| == layout.RowBytes() + 1
    requires cur.Length == prev.Length == layout.RowBytes() && row565.Length == layout.width * 2
    requires cur != prev && row565 != cur && row565 != prev
    modifies cur, row565
    ensures cur[..] == Unfiltered(line, prev[..], layout.channels)
    ensures row565[..] == Row565(cur[..], layout)
  {
    forall i | 0 <= i < cur.Length {
      cur[i] := line[1 + i];
    }
    assert cur[..] == line[1..];
    Filter.Unfilter(line[0], cur, prev, layout.channels);
    PackPixels(cur, row565, layout);
  }

  /** The row loop as a function of the unread stream, the row above and the output so far. */
  function RowsFrom(z: Bytes, layout: Layout, y: nat, prior: Bytes, out: Bytes): Result
    requires layout.Valid() && y <= layout.height && |prior| == layout.RowBytes()
    decreases layout.height - y
  {
    var n := layout.RowBytes();
    if y == layout.height then Converted(layout.width, layout.height, out)
    else if z == [] then Failed(RowFilter(y))
    else if |z| < n + 1 then Failed(RowData(y))
    else
      var row := Unfiltered(z[..n + 1], prior, layout.channels);
      RowsFrom(z[n + 1..], layout, y + 1, row, out + Row565(row, layout))
  }

  lemma RowsFromStep(zr: Bytes, layout: Layout, y: nat, prior: Bytes, out: Bytes)
    requires layout.Valid() && y < layout.height && |prior| == layout.RowBytes() < |zr|
    ensures var row := Unfiltered(zr[..layout.RowBytes() + 1], prior, layout.channels);
            var next := RowsFrom(zr[layout.RowBytes() + 1..], layout, y + 1, row, out + Row565(row, layout));
            RowsFrom(zr, layout, y, prior, out) == next
  {}

  /** The loop over the rows of the decompressed stream, two buffers taking turns. */
  method ConvertRows(z: Bytes, layout: Layout) returns (r: Result)
    requires layout.Valid()
    ensures r == RowsFrom(z, layout, 0, Zeros(layout.RowBytes()), Header(layout))
  {
    hide Unfiltered, Row565;
    var n := RowOffset(layout.width, layout.channels);
    var out := Header(layout);
    var cur := new byte[n](_ => 0);
    var prev := new byte[n](_ => 0);
    var row565 := new byte[layout.width * 2];
    var zr := z;
    assert n == layout.RowBytes();
    assert prev[..] == Zeros(n);
    for y := 0 to layout.height
      invariant fresh(cur) && fresh(prev) && fresh(row565)
      invariant cur != prev && cur.Length == prev.Length == n && row565 !in {cur, prev}
      invariant row565.Length == layout.width * 2
      invariant RowsFrom(zr, layout, y, prev[..], out) == RowsFrom(z, layout, 0, Zeros(n), Header(layout))
    {
      if zr == [] {
        return Failed(RowFilter(y));
      }
      if |zr| < n + 1 {
        return Failed(RowData(y));
      }
      RowsFromStep(zr, layout, y, prev[..], out);
      ghost var row := Unfiltered(zr[..n + 1], prev[..], layout.channels);
      ConvertRow(zr[..n + 1], cur, prev, row565, layout);
      assert cur[..] == row;
      zr := zr[n + 1..];
      out := out + row565[..];
      cur, prev := prev, cur;
    }
    return Converted(layout.width, layout.height, out);
  }

  /** The outcome of the row loop: all rows, or the row at which the stream ends. */
  function Converting(z: Bytes, layout: Layout): Result
    requires layout.Valid()
  {
    var n := layout.RowBytes() + 1;
    if Start(layout.height, n) <= |z| then
      Converted(layout.width, layout.height, Header(layout) + Body(z, layout, layout.height))
    else
      var y := RowsIn(|z|, n);
      Failed(if Start(y, n) == |z| then RowFilter(y) else RowData(y))
  }

  lemma StreamEnds(z: Bytes, layout: Layout, y: nat)
    requires layout.Valid() && y < layout.height
    requires Start(y, layout.RowBytes() + 1) <= |z| < Start(y + 1, layout.RowBytes() + 1)
    ensures Start(layout.height, layout.RowBytes() + 1) > |z|
    ensures RowsIn(|z|, layout.RowBytes() + 1) == y
  {
    var n := layout.RowBytes() + 1;
    var q := RowsIn(|z|, n);
    RowEnd(y, layout.height, n);
    if q < y { RowEnd(q, y, n); }
    if q > y { RowEnd(y, q, n); }
  }

  /** The loop from row `y` on, in the state it is in when it gets there. */
  function AtRow(z: Bytes, layout: Layout, y: nat): Result
    requires layout.Valid() && y <= layout.height && Start(y, layout.RowBytes() + 1) <= |z|
  {
    RowsFrom(z[Start(y, layout.RowBytes() + 1)..], layout, y, Prior(z, layout, y), Header(layout) + Body(z, layout, y))
  }

  lemma LineOfRest(z: Bytes, layout: Layout, y: nat)
    requires layout.Valid() && Start(y + 1, layout.RowBytes() + 1) <= |z|
    ensures var n, s := layout.RowBytes() + 1, Start(y, layout.RowBytes() + 1);
            s + n <= |z| && z[s..][..n] == Line(z, layout, y) && z[s..][n..] == z[Start(y + 1, n)..]
  {}

  lemma AtRowStep(z: Bytes, layout: Layout, y: nat)
    requires layout.Valid() && y < layout.height && Start(y + 1, layout.RowBytes() + 1) <= |z|
    ensures Start(y, layout.RowBytes() + 1) <= |z|
    ensures AtRow(z, layout, y) == AtRow(z, layout, y + 1)
  {
    hide Unfiltered, Row565, Flat, Rows565;
    NextRow(z, layout, y);
    LineOfRest(z, layout, y);
    var out := Header(layout) + Body(z, layout, y);
    RowsFromStep(z[Start(y, layout.RowBytes() + 1)..], layout, y, Prior(z, layout, y), out);
    assert out + Row565(Row(z, layout, y), layout) == Header(layout) + Body(z, layout, y + 1);
  }

  lemma AtRowEnd(z: Bytes, layout: Layout, y: nat)
    requires layout.Valid() && y <= layout.height && Start(y, layout.RowBytes() + 1) <= |z|
    requires y < layout.height ==> |z| < Start(y + 1, layout.RowBytes() + 1)
    ensures AtRow(z, layout, y) == Converting(z, layout)
  {
    hide Unfiltered, Row565, Flat, Rows565, Row;
    if y < layout.height {
      StreamEnds(z, layout, y);
      assert |z[Start(y, layout.RowBytes() + 1)..]| < layout.RowBytes() + 1;
    }
  }

  /** What the loop computes, told by row index: the whole image, or the row that is missing. */
  lemma {:induction false} AtRowIsConverting(z: Bytes, layout: Layout, y: nat)
    requires layout.Valid() && y <= layout.height && Start(y, layout.RowBytes() + 1) <= |z|
    ensures AtRow(z, layout, y) == Converting(z, layout)
    decreases layout.height - y
  {
    hide Unfiltered, Row565, Flat, Rows565, Row;
    if y < layout.height && Start(y + 1, layout.RowBytes() + 1) <= |z| {
      AtRowStep(z, layout, y);
      AtRowIsConverting(z, layout, y + 1);
    } else {
      AtRowEnd(z, layout, y);
    }
  }

  /** The little-endian word `v` is stored at offset `o`. */
  ghost predicate StoredAt(file: Bytes, o: int, v: word) {
    0 <= o && o + 2 <= |file| && file[o..o + 2] == LoHi(v)
  }

  /** The offset of pixel (x, y) that the file format promises. */
  function Offset(width: int, x: int, y: int): int {
    HEADER_SIZE + (y * width + x) * 2
  }

  lemma OffsetIsStart(layout: Layout, x: nat, y: nat)
    ensures Offset(layout.width, x, y) == HEADER_SIZE + Start(y, layout.width * 2) + 2 * x
  {
    StartIsProduct(y, layout.width * 2);
    assert y * (layout.width * 2) == y * layout.width * 2;
  }

  /** Pixel (x, y) of the output is the packed pixel of the decoded row, at the promised offset. */
  lemma BodyPixel(z: Bytes, layout: Layout, x: nat, y: nat)
    requires layout.Valid() && Start(layout.height, layout.RowBytes() + 1) <= |z|
    requires x < layout.width && y < layout.height
    ensures Start(y + 1, layout.RowBytes() + 1) <= |z|
    ensures StoredAt(Header(layout) + Body(z, layout, layout.height), Offset(layout.width, x, y),
                     Pack(Pixel(Row(z, layout, y), layout, x)))
  {
    hide Row, Pack;
    var rows := Rows565(z, layout, layout.height);
    Rows565Width(z, layout, layout.height);
    FlatRow(rows, layout.width * 2, y);
    Rows565At(z, layout, layout.height, y);
    OffsetIsStart(layout, x, y);
    Row565At(Row(z, layout, y), layout, layout.width, x);
    StoredInSlice(Header(layout), Body(z, layout, layout.height), Start(y, layout.width * 2),
                  Start(y + 1, layout.width * 2), 2 * x, Offset(layout.width, x, y),
                  Pack(Pixel(Row(z, layout, y), layout, x)));
  }

  lemma StoredInSlice(header: Bytes, body: Bytes, s: nat, e: nat, i: nat, o: nat, v: word)
    requires |header| == HEADER_SIZE && s <= e <= |body| && StoredAt(body[s..e], i, v)
    requires o == HEADER_SIZE + s + i
    ensures StoredAt(header + body, o, v)
  {
    var file := header + body;
    assert body[s..e][i] == file[o] && body[s..e][i + 1] == file[o + 1];
    assert body[s..e][i..i + 2] == [file[o], file[o + 1]] == file[o..o + 2];
  }

  lemma FileSize(z: Bytes, layout: Layout)
    requires layout.Valid() && Start(layout.height, layout.RowBytes() + 1) <= |z|
    ensures |Header(layout) + Body(z, layout, layout.height)| == HEADER_SIZE + 2 * layout.width * layout.height
  {
    Rows565Width(z, layout, layout.height);
    FlatRow(Rows565(z, layout, layout.height), layout.width * 2, 0);
    StartIsProduct(layout.height, layout.width * 2);
    Doubled(layout.height, layout.width);
  }

  lemma RowLoop(z: Bytes, layout: Layout)
    requires layout.Valid()
    ensures RowsFrom(z, layout, 0, Zeros(layout.RowBytes()), Header(layout)) == Converting(z, layout)
  {
    AtRowIsConverting(z, layout, 0);
    assert z[0..] == z && Header(layout) + [] == Header(layout);
  }

  // ---- the stream a PNG encoder writes ----

  /** Raw rows, top to bottom. */
  type Image = seq<Bytes>

  ghost predicate Fits(image: Image, filters: Bytes, layout: Layout) {
    layout.Valid() && |image| == |filters| == layout.height && AllOfWidth(image, layout.RowBytes())
  }

  function RowAbove(image: Image, layout: Layout, y: nat): Bytes
    requires y <= |image|
  {
    if y == 0 then Zeros(layout.RowBytes()) else image[y - 1]
  }

  function EncodedLine(image: Image, filters: Bytes, layout: Layout, y: nat): (line: Bytes)
    requires Fits(image, filters, layout) && y < layout.height
    ensures |line| == layout.RowBytes() + 1
  {
    var f := filters[y];
    [f] + Filter.Encode(Filter.PredictorOf(f), image[y], RowAbove(image, layout, y), layout.channels)
  }

  /** The scanlines of an image, row `y` under filter type `filters[y]`. */
  function EncodedLines(image: Image, filters: Bytes, layout: Layout): (lines: seq<Bytes>)
    requires Fits(image, filters, layout)
    ensures |lines| == layout.height && AllOfWidth(lines, layout.RowBytes() + 1)
  {
    seq(layout.height, y requires 0 <= y < layout.height => EncodedLine(image, filters, layout, y))
  }

  lemma LineOfEncoded(image: Image, filters: Bytes, layout: Layout, tail: Bytes, y: nat)
    requires Fits(image, filters, layout) && y < layout.height
    ensures var z := Flat(EncodedLines(image, filters, layout)) + tail;
            Start(y + 1, layout.RowBytes() + 1) <= |z| && Start(layout.height, layout.RowBytes() + 1) <= |z|
            && Line(z, layout, y) == EncodedLine(image, filters, layout, y)
  {
    var lines, n := EncodedLines(image, filters, layout), layout.RowBytes() + 1;
    FlatRowOfPrefix(lines, n, tail, y);
    var z := Flat(lines) + tail;
    assert Line(z, layout, y) == z[Start(y, n)..Start(y, n) + n];
    assert lines[y] == EncodedLine(image, filters, layout, y);
  }

  /** Whatever filter each row was written with, decoding gives the image back. */
  lemma {:induction false} RowOfEncoded(image: Image, filters: Bytes, layout: Layout, tail: Bytes, y: nat)
    requires Fits(image, filters, layout) && y < layout.height
    requires Start(y + 1, layout.RowBytes() + 1) <= |Flat(EncodedLines(image, filters, layout)) + tail|
    ensures Row(Flat(EncodedLines(image, filters, layout)) + tail, layout, y) == image[y]
  {
    hide Flat;
    var z := Flat(EncodedLines(image, filters, layout)) + tail;
    LineOfEncoded(image, filters, layout, tail, y);
    NextRow(z, layout, y);
    if y > 0 {
      RowOfEncoded(image, filters, layout, tail, y - 1);
      NextRow(z, layout, y - 1);
    }
    var above := RowAbove(image, layout, y);
    assert Prior(z, layout, y) == above;
    assert image[y] in image;
    Filter.DecodeEncode(Filter.PredictorOf(filters[y]), image[y], above, layout.channels);
  }

  lemma RowsOfEncoded(image: Image, filters: Bytes, layout: Layout, tail: Bytes)
    requires Fits(image, filters, layout)
    ensures var z := Flat(EncodedLines(image, filters, layout)) + tail;
            Start(layout.height, layout.RowBytes() + 1) <= |z| && Rows(z, layout) == image
  {
    var z := Flat(EncodedLines(image, filters, layout)) + tail;
    LineOfEncoded(image, filters, layout, tail, 0);
    forall y | 0 <= y < layout.height
      ensures Rows(z, layout)[y] == image[y]
    {
      LineOfEncoded(image, filters, layout, tail, y);
      RowOfEncoded(image, filters, layout, tail, y);
    }
  }
}
