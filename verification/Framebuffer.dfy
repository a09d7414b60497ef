/** The LCD framebuffer: the writer that presents an RGBA canvas as RGB565, and the mirror that reads
    it back. Rows of the framebuffer are `stride` bytes apart, which may be more than the pixels need. */
module Framebuffer {
  import opened ByteOrder
  import opened Rgb565
  import opened RowGrid
  import opened Canvas
  import opened ImageBytes
  import opened PixelBytes

  datatype Geometry = Geometry(w: nat, h: nat, stride: nat) {
    /** The panel's pixels fit the mapped memory; behind the last row's pixels it may end. */
    ghost predicate Fits(mem: Bytes) {
      2 * w <= stride && (h > 0 ==> Start(h - 1, stride) + 2 * w <= |mem|)
    }

    ghost predicate IsCanvas(img: Bytes) {
      |img| == Start(h, 4 * w)
    }

    /** Where row `y` of the framebuffer ends: at the next row, or with the mapping. */
    function End(mem: Bytes, y: nat): nat {
      if y + 1 < h then Start(y + 1, stride) else |mem|
    }

    lemma SameSize(s: Bytes, t: Bytes, y: nat)
      requires |s| == |t|
      ensures Fits(s) == Fits(t) && End(s, y) == End(t, y)
    {}

    lemma LastRow(mem: Bytes, k: nat)
      requires h > 0 && k < |mem|
      ensures k < End(mem, h - 1)
    {}

    lemma RowInside(mem: Bytes, y: nat)
      requires Fits(mem) && y < h
      ensures Start(y, stride) + 2 * w <= End(mem, y) <= |mem|
    {
      if y + 1 < h {
        RowEnd(y, h - 1, stride);
      }
    }

    /** Row `y` of the framebuffer, pixels and padding. */
    function Row(mem: Bytes, y: nat): (row: Bytes)
      requires Fits(mem) && y < h
      ensures |row| >= 2 * w
    {
      RowInside(mem, y);
      mem[Start(y, stride)..End(mem, y)]
    }

    /** The pixel bytes of row `y` of the framebuffer. */
    function Words(mem: Bytes, y: nat): (s: Bytes)
      requires Fits(mem) && y < h
      ensures |s| == 2 * w
    {
      Row(mem, y)[..2 * w]
    }

    lemma WordsInside(mem: Bytes, y: nat)
      requires Fits(mem) && y < h
      ensures Start(y, stride) + 2 * w <= |mem|
      ensures Words(mem, y) == mem[Start(y, stride)..Start(y, stride) + 2 * w]
    {
      RowInside(mem, y);
    }

    lemma WordAtOffset(mem: Bytes, y: nat, x: nat)
      requires Fits(mem) && y < h && x < w
      ensures var o := y * stride + 2 * x; 0 <= o && o + 2 <= |mem| && Words(mem, y)[2 * x..2 * x + 2] == mem[o..o + 2]
    {
      WordsInside(mem, y);
      StartIsProduct(y, stride);
      SliceOfSlice(mem, y * stride, y * stride + 2 * w, 2 * x, 2 * x + 2);
    }

    /** The bytes behind the pixels of row `y`. */
    function Padding(mem: Bytes, y: nat): Bytes
      requires Fits(mem) && y < h
    {
      Row(mem, y)[2 * w..]
    }

    /** Row `y` of the canvas. */
    function Pixels(img: Bytes, y: nat): (p: Bytes)
      requires IsCanvas(img) && y < h
      ensures |p| == 4 * w
    {
      RowEnd(y, h, 4 * w);
      RowOf(img, 4 * w, y)
    }

    /** What the first `n` rows of the canvas leave in the framebuffer: packed pixels in those rows,
        and every other byte as it was. */
    ghost predicate Presented(now: Bytes, before: Bytes, img: Bytes, n: nat)
      requires Fits(before) && IsCanvas(img)
    {
      && |now| == |before| && (h == 0 ==> now == before)
      && forall y: nat | y < h :: RowPresented(now, before, img, n, y)
    }

    ghost predicate RowPresented(now: Bytes, before: Bytes, img: Bytes, n: nat, y: nat)
      requires Fits(before) && IsCanvas(img) && |now| == |before| && y < h
    {
      Row(now, y) == if y < n then PackRow(Pixels(img, y), w) + Padding(before, y) else Row(before, y)
    }

    lemma PresentedNone(mem: Bytes, img: Bytes)
      requires Fits(mem) && IsCanvas(img)
      ensures Presented(mem, mem, img, 0)
    {}

    lemma PresentedNext(now: Bytes, before: Bytes, img: Bytes, n: nat)
      requires Fits(before) && IsCanvas(img) && n < h && Presented(now, before, img, n)
      ensures Start(n, stride) + 2 * w <= |now|
      ensures Presented(Splice(now, Start(n, stride), PackRow(Pixels(img, n), w)), before, img, n + 1)
    {
      hide PackRow, Splice, Row, Pixels, Start, Padding;
      var t := PackRow(Pixels(img, n), w);
      RowInside(now, n);
      var next := Splice(now, Start(n, stride), t);
      forall y: nat {:trigger RowPresented(next, before, img, n + 1, y)} | y < h
        ensures RowPresented(next, before, img, n + 1, y)
      {
        SpliceHead(now, n, t, y);
        assert RowPresented(now, before, img, n, y);
        if y == n {
          SamePadding(now, before, n);
        }
      }
    }

    lemma SamePadding(s: Bytes, t: Bytes, y: nat)
      requires Fits(s) && Fits(t) && y < h && Row(s, y) == Row(t, y)
      ensures Padding(s, y) == Padding(t, y)
    {}

    /** Writing over the pixels of one row leaves its padding and the other rows alone. */
    lemma SpliceHead(mem: Bytes, n: nat, t: Bytes, y: nat)
      requires Fits(mem) && n < h && y < h && |t| == 2 * w
      ensures Start(n, stride) + |t| <= |mem|
      ensures Row(Splice(mem, Start(n, stride), t), y) == if y == n then t + Padding(mem, y) else Row(mem, y)
    {
      hide Splice, Start;
      RowInside(mem, n);
      RowInside(mem, y);
      if y < n { RowEnd(y, n, stride); }
      if n < y { RowAfter(n, y); }
      SpliceSlices(mem, Start(n, stride), t, Start(y, stride), End(mem, y));
    }

    lemma RowAfter(n: nat, y: nat)
      requires n < y && 2 * w <= stride
      ensures Start(n, stride) + 2 * w <= Start(y, stride)
    {
      RowEnd(n, y, stride);
    }
  }

  class Display {
    const mem: array<byte>
    const g: Geometry

    ghost predicate Valid()
      reads this, mem
    {
      g.Fits(mem[..])
    }

    constructor (mem: array<byte>, g: Geometry)
      requires g.Fits(mem[..])
      ensures Valid() && this.mem == mem && this.g == g
    {
      this.mem, this.g := mem, g;
    }

    /** Blits a canvas of the panel's size into the framebuffer. */
    method Present(img: array<byte>)
      requires Valid() && img != mem && g.IsCanvas(img[..])
      modifies mem
      ensures Valid() && g.Presented(mem[..], old(mem[..]), img[..], g.h)
    {
      hide PackRow, Geometry.Row, Geometry.Presented, Splice;
      ghost var before, pixels := mem[..], img[..];
      ghost var now := before;
      g.PresentedNone(before, pixels);
      for y := 0 to g.h
        invariant img[..] == pixels && mem[..] == now
        invariant g.Presented(now, before, pixels, y)
      {
        var row := RowOffset(y, g.stride);
        var base := RowOffset(y, 4 * g.w);
        RowEnd(y, g.h, 4 * g.w);
        g.RowInside(now, y);
        g.PresentedNext(now, before, pixels, y);
        PresentRow(row, img, base);
        now := Splice(now, row, PackRow(g.Pixels(pixels, y), g.w));
      }
    }

    /** The inner loop: one row of pixels. */
    method PresentRow(row: nat, img: array<byte>, base: nat)
      requires img != mem && row + 2 * g.w <= mem.Length && base + 4 * g.w <= img.Length
      modifies mem
      ensures mem[..] == Splice(old(mem[..]), row, PackRow(img[base..base + 4 * g.w], g.w))
    {
      hide Pack, PackRow, Splice, PartRow, LoHi;
      ghost var before, p := mem[..], img[base..base + 4 * g.w];
      ghost var now := before;
      PartRowEnds(before, row, p, g.w);
      for x := 0 to g.w
        invariant mem[..] == now == PartRow(before, row, p, x)
      {
        var o := base + x * 4;
        var c := Rgb(img[o], img[o + 1], img[o + 2]);
        assert c == RgbAt(p, x);
        PartRowNext(before, row, p, x);
        PutWord(row + x * 2, Pack(c));
        now := Splice(now, row + x * 2, LoHi(Pack(c)));
      }
    }

    /** The two byte stores of a pixel. */
    method PutWord(i: nat, px: word)
      requires i + 1 < mem.Length
      modifies mem
      ensures mem[..] == Splice(old(mem[..]), i, LoHi(px))
    {
      mem[i] := Lo(px);
      mem[i + 1] := Hi(px);
    }
  }

  /** The framebuffer after the first `x` pixels of row `p` have been stored at `row`. */
  ghost function PartRow(mem: Bytes, row: nat, p: Bytes, x: nat): (r: Bytes)
    requires 4 * x <= |p| && row + 2 * x <= |mem|
    ensures |r| == |mem|
  {
    Splice(mem, row, PackRow(p[..4 * x], x))
  }

  lemma PartRowEnds(mem: Bytes, row: nat, p: Bytes, n: nat)
    requires |p| == 4 * n && row + 2 * n <= |mem|
    ensures PartRow(mem, row, p, 0) == mem
    ensures PartRow(mem, row, p, n) == Splice(mem, row, PackRow(p, n))
  {
    SpliceNothing(mem, row);
    assert p[..4 * n] == p;
  }

  lemma PartRowNext(mem: Bytes, row: nat, p: Bytes, x: nat)
    requires 4 * x + 4 <= |p| && row + 2 * x + 2 <= |mem|
    ensures PartRow(mem, row, p, x + 1) == Splice(PartRow(mem, row, p, x), row + 2 * x, LoHi(Pack(RgbAt(p, x))))
  {
    PackRowNext(p, x);
    SpliceNext(mem, row, PackRow(p[..4 * x], x), LoHi(Pack(RgbAt(p, x))));
  }

  // ---- the mirror ----

  /** The rows of the image that the mirror decodes from the mapped framebuffer. */
  function MirrorRows(raw: Bytes, g: Geometry, n: nat): (rows: seq<Bytes>)
    requires g.Fits(raw) && n <= g.h
    ensures |rows| == n
  {
    if n == 0 then [] else MirrorRows(raw, g, n - 1) + [ExpandRow(g.Words(raw, n - 1), g.w)]
  }

  /** The pixel loop of the mirror, up to the JPEG encoder. */
  method Snapshot(raw: Bytes, g: Geometry) returns (pix: array<byte>)
    requires g.Fits(raw)
    ensures fresh(pix) && pix[..] == Flat(MirrorRows(raw, g, g.h))
  {
    hide ExpandRow;
    var size := RowOffset(g.h, 4 * g.w);
    pix := new byte[size];
    ghost var done := 0;
    for y := 0 to g.h
      invariant done == Start(y, 4 * g.w) <= pix.Length
      invariant pix[..done] == Flat(MirrorRows(raw, g, y))
    {
      RowEnd(y, g.h, 4 * g.w);
      MirrorNext(raw, g, y);
      MirrorRow(raw, g, y, pix);
      done := done + 4 * g.w;
    }
    assert pix[..done] == pix[..];
  }

  lemma MirrorNext(raw: Bytes, g: Geometry, y: nat)
    requires g.Fits(raw) && y < g.h
    ensures Flat(MirrorRows(raw, g, y + 1)) == Flat(MirrorRows(raw, g, y)) + ExpandRow(g.Words(raw, y), g.w)
  {
    hide ExpandRow, Geometry.Words, Geometry.Fits;
    assert MirrorRows(raw, g, y + 1)[..y] == MirrorRows(raw, g, y);
  }

  /** The canvas up to the first `x` pixels of a row of words, which come behind `before`. */
  ghost function PartMirror(before: Bytes, words: Bytes, x: nat): Bytes
    requires 2 * x <= |words|
  {
    before + ExpandRow(words[..2 * x], x)
  }

  lemma PartMirrorNext(before: Bytes, words: Bytes, x: nat)
    requires 2 * x + 2 <= |words|
    ensures PartMirror(before, words, x + 1) == PartMirror(before, words, x) + Rgba(Expand(WordAt(words, x)))
    ensures |PartMirror(before, words, x)| == |before| + 4 * x
  {
    hide Word, ExpandRow, Rgba, Expand;
    ExpandRowNext(words, x);
    Associate(before, ExpandRow(words[..2 * x], x), Rgba(Expand(WordAt(words, x))));
  }

  lemma PartMirrorEnds(before: Bytes, words: Bytes, n: nat)
    requires |words| == 2 * n
    ensures PartMirror(before, words, 0) == before
    ensures PartMirror(before, words, n) == before + ExpandRow(words, n)
  {
    ExpandRowNone(words[..0]);
    assert words[..2 * n] == words && before + [] == before;
  }

  /** The inner loop: one row of pixels. */
  method MirrorRow(raw: Bytes, g: Geometry, y: nat, pix: array<byte>)
    requires g.Fits(raw) && y < g.h && Start(y, 4 * g.w) + 4 * g.w <= pix.Length
    modifies pix
    ensures pix[..Start(y, 4 * g.w) + 4 * g.w] == old(pix[..Start(y, 4 * g.w)]) + ExpandRow(g.Words(raw, y), g.w)
  {
    hide Expand, ExpandRow, Word, Start, Rgba, PartMirror, Geometry.Fits, Geometry.Row, Geometry.Words;
    g.WordsInside(raw, y);
    var row := RowOffset(y, g.stride);
    var base := RowOffset(y, 4 * g.w);
    ghost var before, words := pix[..base], g.Words(raw, y);
    PartMirrorEnds(before, words, g.w);
    for x := 0 to g.w
      invariant pix[..base + 4 * x] == PartMirror(before, words, x)
    {
      var o := base + x * 4;
      var px := Word(raw[row + x * 2], raw[row + x * 2 + 1]);
      assert px == WordAt(words, x);
      PartMirrorNext(before, words, x);
      PutPixel(pix, o, Expand(px));
    }
  }

  lemma ExpandRowNone(s: Bytes)
    requires s == []
    ensures ExpandRow(s, 0) == []
  {}

  // ---- the writer against the mirror ----

  lemma {:induction false} MirrorRowsAt(raw: Bytes, g: Geometry, n: nat, y: nat)
    requires g.Fits(raw) && y < n <= g.h
    ensures MirrorRows(raw, g, n)[y] == ExpandRow(g.Words(raw, y), g.w)
  {
    if y < n - 1 {
      MirrorRowsAt(raw, g, n - 1, y);
    }
  }

  lemma {:induction false} MirrorRowsWidth(raw: Bytes, g: Geometry, n: nat)
    requires g.Fits(raw) && n <= g.h
    ensures AllOfWidth(MirrorRows(raw, g, n), 4 * g.w)
  {
    hide ExpandRow;
    if n > 0 {
      MirrorRowsWidth(raw, g, n - 1);
      var row := ExpandRow(g.Words(raw, n - 1), g.w);
      AllOfWidthAppend(MirrorRows(raw, g, n - 1), row, 4 * g.w);
    }
  }

  /** The mirror's image is a canvas whose rows are the expanded rows of the framebuffer. */
  lemma MirrorCanvas(raw: Bytes, g: Geometry, y: nat)
    requires g.Fits(raw) && y < g.h
    ensures var img := Flat(MirrorRows(raw, g, g.h));
            g.IsCanvas(img) && g.Pixels(img, y) == ExpandRow(g.Words(raw, y), g.w)
  {
    hide ExpandRow, MirrorRows, Flat;
    var rows := MirrorRows(raw, g, g.h);
    MirrorRowsWidth(raw, g, g.h);
    MirrorRowsAt(raw, g, g.h, y);
    FlatRow(rows, 4 * g.w, y);
    assert Start(y + 1, 4 * g.w) == Start(y, 4 * g.w) + 4 * g.w;
  }

  /** Decoding what was presented gives every pixel of the canvas, quantised to 565 and opaque. */
  lemma MirrorOfPresented(now: Bytes, before: Bytes, img: Bytes, g: Geometry, x: nat, y: nat)
    requires g.Fits(before) && g.IsCanvas(img) && g.Presented(now, before, img, g.h)
    requires x < g.w && y < g.h
    ensures g.IsCanvas(Flat(MirrorRows(now, g, g.h)))
    ensures var c, row := RgbAt(g.Pixels(img, y), x), g.Pixels(Flat(MirrorRows(now, g, g.h)), y);
            var q := RgbAt(row, x);
            && q == Expand(Pack(c)) && row[4 * x + 3] == 0xff
            && -7 <= q.r - c.r <= 7 && -3 <= q.g - c.g <= 3 && -7 <= q.b - c.b <= 7
  {
    hide Expand, Pack, PackRow, ExpandRow, Geometry.Pixels, Geometry.Words, Flat, MirrorRows, LoHi, Rgba;
    MirrorCanvas(now, g, y);
    assert g.RowPresented(now, before, img, g.h, y);
    PresentedWords(now, before, img, g, y);
    var p := g.Pixels(img, y);
    var words := PackRow(p, g.w);
    hide Geometry.RowPresented, Geometry.Presented, Geometry.Fits;
    PackRowAt(p, g.w, x);
    ExpandRowAt(words, g.w, x);
    WordInRow(words, x, Pack(RgbAt(p, x)));
    PixelInRow(ExpandRow(words, g.w), x, Expand(Pack(RgbAt(p, x))));
    QuantisationError(RgbAt(p, x));
  }

  lemma WordInRow(s: Bytes, x: nat, v: word)
    requires 2 * x + 2 <= |s| && s[2 * x..2 * x + 2] == LoHi(v)
    ensures WordAt(s, x) == v
  {
    assert s[2 * x] == LoHi(v)[0] && s[2 * x + 1] == LoHi(v)[1];
    BytesOfWord(v);
  }

  lemma PixelInRow(p: Bytes, x: nat, c: Rgb)
    requires 4 * x + 4 <= |p| && p[4 * x..4 * x + 4] == Rgba(c)
    ensures RgbAt(p, x) == c && p[4 * x + 3] == 0xff
  {
    var q := p[4 * x..4 * x + 4];
    assert p[4 * x] == q[0] && p[4 * x + 1] == q[1] && p[4 * x + 2] == q[2] && p[4 * x + 3] == q[3];
  }

  /** Presenting what the mirror decoded stores the same pixel bytes again. */
  lemma PresentedMirror(raw: Bytes, now: Bytes, before: Bytes, g: Geometry, y: nat)
    requires g.Fits(raw) && g.Fits(before) && y < g.h
    requires g.IsCanvas(Flat(MirrorRows(raw, g, g.h)))
    requires g.Presented(now, before, Flat(MirrorRows(raw, g, g.h)), g.h)
    ensures g.Words(now, y) == g.Words(raw, y) && g.Padding(now, y) == g.Padding(before, y)
  {
    hide ExpandRow, PackRow;
    MirrorCanvas(raw, g, y);
    assert g.RowPresented(now, before, Flat(MirrorRows(raw, g, g.h)), g.h, y);
    PackExpandRow(g.Words(raw, y), g.w);
  }

  // ---- byte by byte ----

  /** Pixel (x, y) of a canvas of the panel's size. */
  lemma PixelOffset(g: Geometry, img: Bytes, x: nat, y: nat)
    requires g.IsCanvas(img) && x < g.w && y < g.h
    ensures var i := (y * g.w + x) * 4; 0 <= i && i + 4 <= |img| && g.Pixels(img, y)[4 * x..4 * x + 4] == img[i..i + 4]
  {
    hide Start;
    RowEnd(y, g.h, 4 * g.w);
    NextStart(y, 4 * g.w);
    StartIsProduct(y, 4 * g.w);
    FourTimes(y, g.w);
    SliceOfSlice(img, y * (4 * g.w), y * (4 * g.w) + 4 * g.w, 4 * x, 4 * x + 4);
  }

  /** A presented pixel: the two bytes at its place in the framebuffer are its word, low byte first. */
  lemma PresentPixel(now: Bytes, before: Bytes, img: Bytes, g: Geometry, x: nat, y: nat)
    requires g.Fits(before) && g.IsCanvas(img) && g.Presented(now, before, img, g.h) && x < g.w && y < g.h
    ensures CanvasStored(now, y * g.stride + 2 * x, img, g.w, x, y)
  {
    hide Pack, Lo, Hi, Is565, PackRow, Geometry.Pixels, Geometry.Words;
    var p, i, o := g.Pixels(img, y), (y * g.w + x) * 4, y * g.stride + 2 * x;
    assert g.RowPresented(now, before, img, g.h, y);
    assert g.Words(now, y) == PackRow(p, g.w) by { PresentedWords(now, before, img, g, y); }
    PackRowAt(p, g.w, x);
    g.WordAtOffset(now, y, x);
    PixelOffset(g, img, x, y);
    hide Geometry.RowPresented, Geometry.Presented, Geometry.Fits, Geometry.IsCanvas;
    FourOf(p, 4 * x, img[i..i + 4]);
    FourOf(img, i, img[i..i + 4]);
    var c := RgbAt(p, x);
    TwoOf(now, o, LoHi(Pack(c)));
    WordIs565(c.r, c.g, c.b);
  }

  lemma PresentedWords(now: Bytes, before: Bytes, img: Bytes, g: Geometry, y: nat)
    requires g.Fits(before) && g.IsCanvas(img) && |now| == |before| && y < g.h
    requires g.RowPresented(now, before, img, g.h, y)
    ensures g.Words(now, y) == PackRow(g.Pixels(img, y), g.w)
  {
    hide PackRow;
  }

  /** Every other byte of the framebuffer is as it was. */
  lemma PresentElsewhere(now: Bytes, before: Bytes, img: Bytes, g: Geometry, k: nat)
    requires g.Fits(before) && g.IsCanvas(img) && g.Presented(now, before, img, g.h) && k < |before|
    requires forall y: nat | y < g.h :: !InPixels(g, y, k)
    ensures now[k] == before[k]
  {
    hide PackRow, Geometry.Pixels, Start, Geometry.Row, Geometry.Padding, Geometry.End, Geometry.Fits;
    if g.h > 0 {
      g.LastRow(before, k);
      var y := RowAround(before, g, g.h - 1, k);
      assert !InPixels(g, y, k) && g.RowPresented(now, before, img, g.h, y);
      StartIsProduct(y, g.stride);
      g.SameSize(now, before, y);
      ByteOfRow(before, g, y, k);
      ByteOfRow(now, g, y, k);
      var i := k - Start(y, g.stride);
      var words := PackRow(g.Pixels(img, y), g.w);
      assert (words + g.Padding(before, y))[i] == g.Padding(before, y)[i - 2 * g.w];
    }
  }

  lemma ByteOfRow(mem: Bytes, g: Geometry, y: nat, k: nat)
    requires g.Fits(mem) && y < g.h && Start(y, g.stride) <= k < g.End(mem, y)
    ensures var i := k - Start(y, g.stride);
            && k < |mem| && i < |g.Row(mem, y)| && mem[k] == g.Row(mem, y)[i]
            && (i >= 2 * g.w ==> i - 2 * g.w < |g.Padding(mem, y)| && g.Padding(mem, y)[i - 2 * g.w] == mem[k])
  {
    hide Start;
    g.RowInside(mem, y);
  }

  /** Byte `k` belongs to a pixel of row `y`. */
  ghost predicate InPixels(g: Geometry, y: nat, k: nat) {
    y * g.stride <= k < y * g.stride + 2 * g.w
  }

  lemma {:induction false} RowAround(mem: Bytes, g: Geometry, last: nat, k: nat) returns (y: nat)
    requires g.Fits(mem) && last < g.h && k < |mem| && (last + 1 < g.h ==> k < Start(last + 1, g.stride))
    ensures y < g.h && Start(y, g.stride) <= k < g.End(mem, y)
  {
    if last == 0 || Start(last, g.stride) <= k {
      y := last;
    } else {
      y := RowAround(mem, g, last - 1, k);
    }
  }

  /** A mirrored pixel: the word at its place in the framebuffer, expanded. */
  lemma MirrorPixel(raw: Bytes, g: Geometry, x: nat, y: nat)
    requires g.Fits(raw) && x < g.w && y < g.h
    ensures CanvasShows(Flat(MirrorRows(raw, g, g.h)), g.w, x, y, raw, y * g.stride + 2 * x)
  {
    hide Expand, ExpandRow, Flat, MirrorRows, Geometry.Pixels, Geometry.Words, Word, IsExpanded;
    var pix, words, o := Flat(MirrorRows(raw, g, g.h)), g.Words(raw, y), y * g.stride + 2 * x;
    MirrorCanvas(raw, g, y);
    ExpandRowAt(words, g.w, x);
    PixelOffset(g, pix, x, y);
    g.WordAtOffset(raw, y, x);
    hide Geometry.Fits, Geometry.IsCanvas;
    TwoOf(words, 2 * x, raw[o..o + 2]);
    TwoOf(raw, o, raw[o..o + 2]);
    FourOf(pix, (y * g.w + x) * 4, Rgba(Expand(WordAt(words, x))));
    ExpandedIs(pix, (y * g.w + x) * 4, raw[o], raw[o + 1]);
  }
}
