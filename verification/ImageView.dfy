/** The heatmap viewer: pans a window over a .r565 file, reading only what is on screen. */
module ImageView {
  import opened ByteOrder
  import opened Rgb565
  import opened RowGrid
  import opened R565Rows
  import opened Canvas
  import opened KeyMap
  import opened ImageBytes
  import opened PixelBytes

  const PAN_STEP := 32
  const FOOTER_H := 12

  /** colBg, opaque */
  const BG := Rgb(0x07, 0x0b, 0x09)

  function Max0(x: int): int {
    if x < 0 then 0 else x
  }

  function Clamp(v: int, lo: int, hi: int): int {
    if v < lo then lo else if v > hi then hi else v
  }

  /** `n` background pixels. */
  function Background(n: nat): (p: Bytes)
    ensures |p| == 4 * n
  {
    if n == 0 then [] else Background(n - 1) + Rgba(BG)
  }

  /** An opened file: its bytes and the dimensions in its header. */
  datatype Picture = Picture(file: Bytes, imgW: nat, imgH: nat) {
    /** The file is as long as its header says. */
    ghost predicate Complete() {
      |file| == HEADER_SIZE + Start(imgH, 2 * imgW)
    }

    /** The offset of pixel (x, y). */
    function At(x: nat, y: nat): nat {
      HEADER_SIZE + Start(y, 2 * imgW) + 2 * x
    }

    /** The file is long enough to hold pixel (x, y). */
    predicate Has(x: nat, y: nat) {
      x < imgW && y < imgH && At(x, y) + 2 <= |file|
    }

    lemma CompleteHas(x: nat, y: nat)
      requires Complete() && x < imgW && y < imgH
      ensures Has(x, y)
    {
      RowEnd(y, imgH, 2 * imgW);
    }
  }

  datatype Pan = Pan(x: int, y: int)

  /** How many pixels of a row `vw` wide the image covers. */
  function Covered(vw: nat, imgW: nat, panX: int): int {
    if panX + vw > imgW then imgW - panX else vw
  }

  /** A buffer after f.ReadAt(buf[:n], off): as many bytes as the file has there, the rest as it was. */
  function ReadInto(file: Bytes, buf: Bytes, n: nat, off: nat): (r: Bytes)
    requires n <= |buf|
    ensures |r| == |buf|
  {
    if off + n <= |file| then file[off..off + n] + buf[n..]
    else if off <= |file| then file[off..] + buf[|file| - off..]
    else buf
  }

  /** The row buffer after the first `n` rows of the view; rows that the file lacks leave it as it is. */
  function RowBuffer(p: Picture, pan: Pan, vw: nat, n: nat): (buf: Bytes)
    requires InRange(p, pan, vw)
    ensures |buf| == vw * 2
  {
    if n == 0 then seq(vw * 2, i => 0)
    else ReadInto(p.file, RowBuffer(p, pan, vw, n - 1), 2 * Covered(vw, p.imgW, pan.x), p.At(pan.x, pan.y + n - 1))
  }

  /** The words drawn in row `ry` of the view. */
  function RowWords(p: Picture, pan: Pan, vw: nat, ry: nat): (s: Bytes)
    requires InRange(p, pan, vw)
    ensures |s| == 2 * Covered(vw, p.imgW, pan.x)
  {
    RowBuffer(p, pan, vw, ry + 1)[..2 * Covered(vw, p.imgW, pan.x)]
  }

  /** What row `ry` of the view shows: the image from the pan offset, then background. */
  function ViewRow(p: Picture, pan: Pan, vw: nat, ry: nat): (row: Bytes)
    requires InRange(p, pan, vw)
    ensures |row| == 4 * vw
  {
    var n := Covered(vw, p.imgW, pan.x);
    if pan.y + ry >= p.imgH then Background(vw)
    else ExpandRow(RowWords(p, pan, vw, ry), n) + Background(vw - n)
  }

  /** What clamping leaves of a pan offset, horizontally. */
  predicate InRange(p: Picture, pan: Pan, vw: nat) {
    0 <= pan.x <= Max0(p.imgW - vw) && 0 <= pan.y
  }

  /** The clamp at the head of drawImage. */
  function Clamped(pan: Pan, imgW: nat, imgH: nat, vw: nat, vh: nat): Pan {
    Pan(Clamp(pan.x, 0, Max0(imgW - vw)), Clamp(pan.y, 0, Max0(imgH - vh)))
  }

  /** One navigation key, before any clamping. */
  function Moved(pan: Pan, key: Key): Pan {
    match key
    case KeyLeft => pan.(x := pan.x - PAN_STEP)
    case KeyRight => pan.(x := pan.x + PAN_STEP)
    case KeyUp => pan.(y := pan.y - PAN_STEP)
    case KeyDown => pan.(y := pan.y + PAN_STEP)
    case _ => pan
  }

  // ---- drawing ----

  /** f.ReadAt(buf[:n], off), whose only error is the end of the file. */
  method ReadAt(file: Bytes, buf: array<byte>, n: nat, off: nat)
    requires n <= buf.Length
    modifies buf
    ensures buf[..] == ReadInto(file, old(buf[..]), n, off)
  {
    var m := if off + n <= |file| then n else if off <= |file| then |file| - off else 0;
    ghost var before := buf[..];
    forall i | 0 <= i < m {
      buf[i] := file[off + i];
    }
    assert buf[..] == (if m == 0 then [] else file[off..off + m]) + before[m..];
  }

  /** Expands a row of words straight into the pixel buffer. */
  method BlitR565Row(pix: array<byte>, offset: nat, src: array<byte>, n: nat)
    requires pix != src && 2 * n <= src.Length && offset + 4 * n <= pix.Length
    modifies pix
    ensures pix[..] == Splice(old(pix[..]), offset, ExpandRow(src[..2 * n], n))
  {
    hide Expand, Word, Splice;
    ghost var before, words := pix[..], src[..2 * n];
    SpliceNothing(before, offset);
    assert ExpandRow(words[..0], 0) == [];
    var o := offset;
    var i := 0;
    ghost var x := 0;
    while i + 1 < 2 * n
      invariant x <= n && i == 2 * x && o == offset + 4 * x && src[..2 * n] == words
      invariant pix[..] == Splice(before, offset, ExpandRow(words[..2 * x], x))
    {
      var v := Word(src[i], src[i + 1]);
      assert v == WordAt(words, x);
      ExpandRowNext(words, x);
      SpliceNext(before, offset, ExpandRow(words[..2 * x], x), Rgba(Expand(v)));
      PutPixel(pix, o, Expand(v));
      o := o + 4;
      i := i + 2;
      x := x + 1;
    }
    assert words[..2 * n] == words;
  }

  /** c.FillRect for a rectangle of full rows from the top: a row of background at a time. */
  method FillRow(pix: array<byte>, offset: nat, vw: nat)
    requires offset + 4 * vw <= pix.Length
    modifies pix
    ensures pix[..] == Splice(old(pix[..]), offset, Background(vw))
  {
    hide Splice;
    ghost var before := pix[..];
    SpliceNothing(before, offset);
    for x := 0 to vw
      invariant pix[..] == Splice(before, offset, Background(x))
    {
      SpliceNext(before, offset, Background(x), Rgba(BG));
      PutPixel(pix, offset + 4 * x, BG);
    }
  }

  /** Row `y` of the view: drawn if it is among the first `n`, background otherwise. */
  ghost predicate RowDrawn(pix: Bytes, p: Picture, pan: Pan, vw: nat, n: nat, y: nat)
    requires Start(y, 4 * vw) + 4 * vw <= |pix| && InRange(p, pan, vw)
  {
    RowOf(pix, 4 * vw, y) == if y < n then ViewRow(p, pan, vw, y) else Background(vw)
  }

  ghost predicate Drawn(pix: Bytes, p: Picture, pan: Pan, vw: nat, vh: nat, n: nat)
    requires InRange(p, pan, vw)
  {
    Start(vh, 4 * vw) <= |pix| && forall y: nat | y < vh :: RowFits(pix, vw, vh, y) && RowDrawn(pix, p, pan, vw, n, y)
  }

  ghost predicate RowFits(pix: Bytes, vw: nat, vh: nat, y: nat) {
    Start(y, 4 * vw) + 4 * vw <= |pix|
  }

  ghost predicate Filled(pix: Bytes, vw: nat, vh: nat, n: nat) {
    Start(vh, 4 * vw) <= |pix|
    && forall y: nat | y < vh && y < n :: RowFits(pix, vw, vh, y) && RowOf(pix, 4 * vw, y) == Background(vw)
  }

  lemma FilledNext(pix: Bytes, vw: nat, vh: nat, n: nat)
    requires n < vh && Filled(pix, vw, vh, n)
    ensures Start(n, 4 * vw) + 4 * vw <= |pix|
    ensures Filled(Splice(pix, Start(n, 4 * vw), Background(vw)), vw, vh, n + 1)
  {
    hide Background, Splice, RowOf;
    RowEnd(n, vh, 4 * vw);
    forall y: nat | y < n + 1
      ensures RowFits(pix, vw, vh, y)
              && RowOf(Splice(pix, Start(n, 4 * vw), Background(vw)), 4 * vw, y) == Background(vw)
    {
      if y < n {
        assert RowFits(pix, vw, vh, y);
      }
      SpliceRow(pix, 4 * vw, n, Background(vw), y);
    }
  }

  /** A drawn row below the image is background; a drawn row of the image replaces background. */
  lemma DrawnNext(pix: Bytes, p: Picture, pan: Pan, vw: nat, vh: nat, n: nat)
    requires InRange(p, pan, vw) && n < vh && Drawn(pix, p, pan, vw, vh, n)
    requires pan.y + n < p.imgH
    ensures Start(n, 4 * vw) + 4 * vw <= |pix|
    ensures var k := Covered(vw, p.imgW, pan.x);
            var words := ExpandRow(RowWords(p, pan, vw, n), k);
            Drawn(Splice(pix, Start(n, 4 * vw), words), p, pan, vw, vh, n + 1)
  {
    hide ExpandRow, Splice, RowOf;
    var k := Covered(vw, p.imgW, pan.x);
    var t := ExpandRow(RowWords(p, pan, vw, n), k);
    RowEnd(n, vh, 4 * vw);
    var next := Splice(pix, Start(n, 4 * vw), t);
    forall y: nat | y < vh
      ensures RowFits(next, vw, vh, y) && RowDrawn(next, p, pan, vw, n + 1, y)
    {
      assert RowFits(pix, vw, vh, y) && RowDrawn(pix, p, pan, vw, n, y);
      SpliceRow(pix, 4 * vw, n, t, y);
      BackgroundTail(vw, k);
    }
  }

  lemma {:induction false} BackgroundTail(n: nat, k: nat)
    requires k <= n
    ensures Background(n)[4 * k..] == Background(n - k)
  {
    if k < n {
      BackgroundTail(n - 1, k);
      assert Background(n)[4 * k..] == Background(n - 1)[4 * k..] + Rgba(BG);
    }
  }

  /** Below the image every row is background, so stopping there leaves the view fully drawn. */
  lemma DrawnBelow(pix: Bytes, p: Picture, pan: Pan, vw: nat, vh: nat, n: nat)
    requires InRange(p, pan, vw) && Drawn(pix, p, pan, vw, vh, n)
    requires n < vh ==> pan.y + n >= p.imgH
    ensures Drawn(pix, p, pan, vw, vh, vh)
  {
    hide RowOf, ExpandRow, Background;
    forall y: nat | y < vh
      ensures RowFits(pix, vw, vh, y) && RowDrawn(pix, p, pan, vw, vh, y)
    {
      assert RowFits(pix, vw, vh, y) && RowDrawn(pix, p, pan, vw, n, y);
    }
  }

  /** Reading the header of a cache file. */
  datatype Opened = Opened(picture: Picture) | BadCache

  function OpenCache(file: Bytes): Opened {
    if |file| < HEADER_SIZE || file[..4] != MAGIC then BadCache
    else Opened(Picture(file, Le(file[8..12]), Le(file[12..16])))
  }

  class ImageView {
    const picture: Picture
    var ready: bool
    var panX: int
    var panY: int

    constructor (picture: Picture, ready: bool)
      ensures this.picture == picture && this.ready == ready && panX == panY == 0
    {
      this.picture, this.ready := picture, ready;
      panX, panY := 0, 0;
    }

    /** A key press; true when it leaves the screen. */
    method Key(key: Key) returns (pop: bool)
      modifies this`panX, this`panY
      ensures pop == (key == KeyBack)
      ensures Pan(panX, panY) == if ready then Moved(Pan(old(panX), old(panY)), key) else Pan(old(panX), old(panY))
    {
      if key == KeyBack {
        return true;
      }
      if !ready {
        return false;
      }
      pop := false;
      match key {
        case KeyLeft => panX := panX - PAN_STEP;
        case KeyRight => panX := panX + PAN_STEP;
        case KeyUp => panY := panY - PAN_STEP;
        case KeyDown => panY := panY + PAN_STEP;
        case _ =>
      }
    }

    /** Draws the view over the first `vh` rows of a canvas `vw` wide; the rows below are the footer's. */
    method DrawImage(pix: array<byte>, vw: nat, vh: nat)
      requires Start(vh, 4 * vw) <= pix.Length
      modifies this`panX, this`panY, pix
      ensures Pan(panX, panY) == Clamped(Pan(old(panX), old(panY)), picture.imgW, picture.imgH, vw, vh)
      ensures InRange(picture, Pan(panX, panY), vw)
      ensures Drawn(pix[..], picture, Pan(panX, panY), vw, vh, vh)
      ensures pix[Start(vh, 4 * vw)..] == old(pix[Start(vh, 4 * vw)..])
    {
      var maxX, maxY := Max0(picture.imgW - vw), Max0(picture.imgH - vh);
      panX := Clamp(panX, 0, maxX);
      panY := Clamp(panY, 0, maxY);
      FillView(pix, vw, vh);
      DrawRows(pix, vw, vh);
    }

    method FillView(pix: array<byte>, vw: nat, vh: nat)
      requires Start(vh, 4 * vw) <= pix.Length
      modifies pix
      ensures Filled(pix[..], vw, vh, vh)
      ensures pix[Start(vh, 4 * vw)..] == old(pix[Start(vh, 4 * vw)..])
    {
      ghost var now, end := pix[..], Start(vh, 4 * vw);
      ghost var before := now;
      for y := 0 to vh
        invariant pix[..] == now && |now| == |before| && now[end..] == before[end..]
        invariant Filled(now, vw, vh, y)
      {
        RowEnd(y, vh, 4 * vw);
        FilledNext(now, vw, vh, y);
        SpliceSlices(now, Start(y, 4 * vw), Background(vw), end, |now|);
        var o := RowOffset(y, 4 * vw);
        FillRow(pix, o, vw);
        now := Splice(now, o, Background(vw));
      }
    }

    /** The row loop: stops at the bottom of the image. */
    method DrawRows(pix: array<byte>, vw: nat, vh: nat)
      requires InRange(picture, Pan(panX, panY), vw)
      requires Start(vh, 4 * vw) <= pix.Length && Filled(pix[..], vw, vh, vh)
      modifies pix
      ensures Drawn(pix[..], picture, Pan(panX, panY), vw, vh, vh)
      ensures pix[Start(vh, 4 * vw)..] == old(pix[Start(vh, 4 * vw)..])
    {
      hide ExpandRow, Splice, RowOf, Background, Drawn, Filled, RowBuffer;
      ghost var p, pan := picture, Pan(panX, panY);
      ghost var now, end := pix[..], Start(vh, 4 * vw);
      ghost var before := now;
      var rowBuf := new byte[vw * 2](i => 0);
      RowBufferNone(p, pan, vw, rowBuf[..]);
      var ry := 0;
      FilledDrawn(now, p, pan, vw, vh);
      while ry < vh
        invariant ry <= vh && fresh(rowBuf) && rowBuf[..] == RowBuffer(p, pan, vw, ry)
        invariant pix[..] == now && |now| == |before| && now[end..] == before[end..]
        invariant Drawn(now, p, pan, vw, vh, ry)
      {
        var sy := panY + ry;
        if sy >= picture.imgH {
          break;
        }
        RowEnd(ry, vh, 4 * vw);
        ghost var words := RowWords(p, pan, vw, ry);
        var n := DrawRow(pix, rowBuf, vw, ry);
        SpliceSlices(now, Start(ry, 4 * vw), ExpandRow(words, n), end, |now|);
        DrawnNext(now, p, pan, vw, vh, ry);
        now := Splice(now, Start(ry, 4 * vw), ExpandRow(words, n));
        ry := ry + 1;
      }
      DrawnBelow(now, p, pan, vw, vh, ry);
    }

    /** The body of the row loop: reads the visible part of one image row and expands it. */
    method DrawRow(pix: array<byte>, rowBuf: array<byte>, vw: nat, ry: nat) returns (n: nat)
      requires InRange(picture, Pan(panX, panY), vw) && panY + ry < picture.imgH
      requires pix != rowBuf && Start(ry, 4 * vw) + 4 * vw <= pix.Length
      requires rowBuf[..] == RowBuffer(picture, Pan(panX, panY), vw, ry)
      modifies pix, rowBuf
      ensures n == Covered(vw, picture.imgW, panX) && n <= vw
      ensures rowBuf[..] == RowBuffer(picture, Pan(panX, panY), vw, ry + 1)
      ensures pix[..] == Splice(old(pix[..]), Start(ry, 4 * vw),
                                ExpandRow(RowWords(picture, Pan(panX, panY), vw, ry), n))
    {
      hide ExpandRow, Splice, ReadInto;
      var sy := panY + ry;
      n := vw;
      if panX + n > picture.imgW {
        n := picture.imgW - panX;
      }
      var row := RowOffset(sy, picture.imgW);
      StartTwice(sy, picture.imgW);
      var off := HEADER_SIZE + (row + panX) * 2;
      ReadAt(picture.file, rowBuf, n * 2, off);
      var o := RowOffset(ry, 4 * vw);
      BlitR565Row(pix, o, rowBuf, n);
    }
  }

  lemma RowBufferNone(p: Picture, pan: Pan, vw: nat, buf: Bytes)
    requires InRange(p, pan, vw) && buf == seq(vw * 2, i => 0)
    ensures buf == RowBuffer(p, pan, vw, 0)
  {}

  lemma FilledDrawn(pix: Bytes, p: Picture, pan: Pan, vw: nat, vh: nat)
    requires InRange(p, pan, vw) && Filled(pix, vw, vh, vh)
    ensures Drawn(pix, p, pan, vw, vh, 0)
  {
    forall y: nat | y < vh
      ensures RowFits(pix, vw, vh, y) && RowDrawn(pix, p, pan, vw, 0, y)
    {
      assert RowFits(pix, vw, vh, y);
    }
  }

  lemma {:induction false} StartTwice(y: nat, n: nat)
    ensures Start(y, 2 * n) == 2 * Start(y, n)
  {
    if y > 0 {
      StartTwice(y - 1, n);
    }
  }

  // ---- the view agrees with the image ----

  function Min(a: int, b: int): int {
    if a < b then a else b
  }

  /** What clamping gives: the window lies on the image where the image is large enough. */
  lemma ClampedWindow(pan: Pan, imgW: nat, imgH: nat, vw: nat, vh: nat)
    ensures var q := Clamped(pan, imgW, imgH, vw, vh);
            && 0 <= q.x <= Max0(imgW - vw) && 0 <= q.y <= Max0(imgH - vh)
            && Covered(vw, imgW, q.x) == Min(vw, imgW)
            && q.y + Min(vh, imgH) <= imgH && (imgH < vh ==> q.y == 0)
            && Clamped(q, imgW, imgH, vw, vh) == q
  {}

  /** The stored word of image pixel (x, y), at the offset that the converter wrote it to. */
  function Stored(p: Picture, x: nat, y: nat): word
    requires p.Has(x, y)
  {
    Word(p.file[p.At(x, y)], p.file[p.At(x, y) + 1])
  }

  lemma StoredOffset(p: Picture, x: nat, y: nat, v: word)
    requires p.Has(x, y) && StoredAt(p.file, Offset(p.imgW, x, y), v)
    ensures Stored(p, x, y) == v
  {
    hide Lo, Hi, Word;
    StartIsProduct(y, 2 * p.imgW);
    Doubled(y, p.imgW);
    var o := Offset(p.imgW, x, y);
    assert o == p.At(x, y);
    assert p.file[o..o + 2] == LoHi(v);
    assert p.file[o] == p.file[o..o + 2][0] && p.file[o + 1] == p.file[o..o + 2][1];
    BytesOfWord(v);
  }

  /** Every cell of a drawn view: the stored pixel under it, where the file has it, or background beside and
      below the image. */
  lemma ViewCell(pix: Bytes, p: Picture, pan: Pan, vw: nat, vh: nat, rx: nat, ry: nat)
    requires rx < vw && ry < vh && pan == Clamped(pan, p.imgW, p.imgH, vw, vh)
    requires Drawn(pix, p, pan, vw, vh, vh)
    ensures Start(ry, 4 * vw) + 4 * vw <= |pix|
    ensures var cell := RowOf(pix, 4 * vw, ry)[4 * rx..4 * rx + 4];
            if rx < Min(vw, p.imgW) && ry < Min(vh, p.imgH)
            then p.Has(pan.x + rx, pan.y + ry) ==> cell == Rgba(Expand(Stored(p, pan.x + rx, pan.y + ry)))
            else cell == Rgba(BG)
  {
    hide Expand, RowOf, ExpandRow, Stored, Background, RowBuffer, RowWords, Picture.Has, Rgba;
    ClampedWindow(pan, p.imgW, p.imgH, vw, vh);
    assert RowFits(pix, vw, vh, ry) && RowDrawn(pix, p, pan, vw, vh, ry);
    var n := Min(vw, p.imgW);
    var row := ViewRow(p, pan, vw, ry);
    if ry >= Min(vh, p.imgH) {
      BackgroundAt(vw, rx);
    } else {
      var words := RowWords(p, pan, vw, ry);
      var pixels, rest := ExpandRow(words, n), Background(vw - n);
      assert row == pixels + rest;
      Beside(pixels, rest, n, rx);
      if rx < n {
        assert pixels[4 * rx..4 * rx + 4] == Rgba(Expand(WordAt(words, rx))) by { ExpandRowAt(words, n, rx); }
        if p.Has(pan.x + rx, pan.y + ry) {
          WordRead(p, pan, vw, ry, rx);
        }
      } else {
        BackgroundAt(vw - n, rx - n);
      }
    }
  }

  /** What is read for a row are the stored words of that row, as far as the file goes. */
  lemma WordRead(p: Picture, pan: Pan, vw: nat, ry: nat, i: nat)
    requires InRange(p, pan, vw) && i < Covered(vw, p.imgW, pan.x) && p.Has(pan.x + i, pan.y + ry)
    ensures WordAt(RowWords(p, pan, vw, ry), i) == Stored(p, pan.x + i, pan.y + ry)
  {
    hide Word, RowBuffer, Start;
    var n, off := Covered(vw, p.imgW, pan.x), p.At(pan.x, pan.y + ry);
    var buf, next := RowBuffer(p, pan, vw, ry), RowBuffer(p, pan, vw, ry + 1);
    assert next == ReadInto(p.file, buf, 2 * n, off) by { RowBufferNext(p, pan, vw, ry); }
    assert next[2 * i] == p.file[off + 2 * i] && next[2 * i + 1] == p.file[off + 2 * i + 1];
  }

  lemma RowBufferNext(p: Picture, pan: Pan, vw: nat, n: nat)
    requires InRange(p, pan, vw)
    ensures RowBuffer(p, pan, vw, n + 1)
         == ReadInto(p.file, RowBuffer(p, pan, vw, n), 2 * Covered(vw, p.imgW, pan.x), p.At(pan.x, pan.y + n))
  {}

  /** Every read for a row of the view lies within one stored row, and within a complete file. */
  lemma ReadInRow(p: Picture, pan: Pan, vw: nat, vh: nat, ry: nat)
    requires pan == Clamped(pan, p.imgW, p.imgH, vw, vh) && ry < vh && pan.y + ry < p.imgH
    ensures 0 <= pan.x && 0 <= pan.y && 0 <= Covered(vw, p.imgW, pan.x)
    ensures var off, n := p.At(pan.x, pan.y + ry), 2 * Covered(vw, p.imgW, pan.x);
            && p.At(0, pan.y + ry) <= off && off + n <= p.At(0, pan.y + ry + 1)
            && (p.Complete() ==> off + n <= |p.file|)
  {
    ClampedWindow(pan, p.imgW, p.imgH, vw, vh);
    RowEnd(pan.y + ry, p.imgH, 2 * p.imgW);
  }

  /** The same in bytes: four at their place on the canvas, from two at theirs in the file. */
  lemma ViewPixel(pix: Bytes, p: Picture, pan: Pan, vw: nat, vh: nat, rx: nat, ry: nat)
    requires rx < vw && ry < vh && pan == Clamped(pan, p.imgW, p.imgH, vw, vh)
    requires Drawn(pix, p, pan, vw, vh, vh)
    ensures var o := (ry * vw + rx) * 4; 0 <= o && o + 4 <= |pix|
    ensures var o, k := (ry * vw + rx) * 4, 16 + ((pan.y + ry) * p.imgW + pan.x + rx) * 2;
            if rx < p.imgW && ry < p.imgH then k + 2 <= |p.file| ==> CanvasShows(pix, vw, rx, ry, p.file, k)
            else pix[o..o + 4] == [0x07, 0x0b, 0x09, 0xff]
  {
    hide Expand, RowOf, Drawn, Stored, Picture.Has, IsExpanded, Rgba;
    ClampedWindow(pan, p.imgW, p.imgH, vw, vh);
    ViewCell(pix, p, pan, vw, vh, rx, ry);
    CellOffset(pix, vw, rx, ry);
    if rx < p.imgW && ry < p.imgH {
      StoredBytes(p, pan.x + rx, pan.y + ry);
      if p.Has(pan.x + rx, pan.y + ry) {
        var o := (ry * vw + rx) * 4;
        FourOf(pix, o, Rgba(Expand(Stored(p, pan.x + rx, pan.y + ry))));
        var k := 16 + ((pan.y + ry) * p.imgW + pan.x + rx) * 2;
        ExpandedIs(pix, o, p.file[k], p.file[k + 1]);
      }
    } else {
      assert Rgba(BG) == [0x07, 0x0b, 0x09, 0xff] by { Background4(); }
    }
  }

  lemma Background4()
    ensures Rgba(BG) == [0x07, 0x0b, 0x09, 0xff]
  {}

  lemma CellOffset(pix: Bytes, vw: nat, rx: nat, ry: nat)
    requires rx < vw && Start(ry, 4 * vw) + 4 * vw <= |pix|
    ensures var o := (ry * vw + rx) * 4;
            0 <= o && o + 4 <= |pix| && RowOf(pix, 4 * vw, ry)[4 * rx..4 * rx + 4] == pix[o..o + 4]
  {
    hide Start;
    StartIsProduct(ry, 4 * vw);
    FourTimes(ry, vw);
    SliceOfSlice(pix, ry * (4 * vw), ry * (4 * vw) + 4 * vw, 4 * rx, 4 * rx + 4);
  }

  lemma StoredBytes(p: Picture, x: nat, y: nat)
    requires x < p.imgW && y < p.imgH
    ensures var k := 16 + (y * p.imgW + x) * 2;
            && 0 <= k && (p.Has(x, y) <==> k + 2 <= |p.file|)
            && (p.Has(x, y) ==> Stored(p, x, y) == Word(p.file[k], p.file[k + 1]))
  {
    StartIsProduct(y, 2 * p.imgW);
    Doubled(y, p.imgW);
  }

  lemma Beside(a: Bytes, b: Bytes, n: nat, x: nat)
    requires |a| == 4 * n && 4 * x + 4 <= |a + b|
    ensures (a + b)[4 * x..4 * x + 4] == if x < n then a[4 * x..4 * x + 4] else b[4 * (x - n)..4 * (x - n) + 4]
  {}

  lemma {:induction false} BackgroundAt(n: nat, i: nat)
    requires i < n
    ensures Background(n)[4 * i..4 * i + 4] == Rgba(BG)
  {
    if i < n - 1 {
      BackgroundAt(n - 1, i);
      assert Background(n)[4 * i..4 * i + 4] == Background(n - 1)[4 * i..4 * i + 4];
    }
  }

  // ---- which way the keys move the window ----

  /** A key moves a drawn window 32 pixels its own way, or as far as the image goes, and no other way. */
  lemma TurnIs(pan: Pan, p: Picture, vw: nat, vh: nat)
    requires pan == Clamped(pan, p.imgW, p.imgH, vw, vh)
    ensures Turn(pan, KeyLeft, p, vw, vh) == pan.(x := if pan.x >= 32 then pan.x - 32 else 0)
    ensures Turn(pan, KeyUp, p, vw, vh) == pan.(y := if pan.y >= 32 then pan.y - 32 else 0)
    ensures Turn(pan, KeyRight, p, vw, vh)
         == if pan.x + 32 + vw <= p.imgW then pan.(x := pan.x + 32)
            else pan.(x := if vw <= p.imgW then p.imgW - vw else 0)
    ensures Turn(pan, KeyDown, p, vw, vh)
         == if pan.y + 32 + vh <= p.imgH then pan.(y := pan.y + 32)
            else pan.(y := if vh <= p.imgH then p.imgH - vh else 0)
    ensures forall key | key !in {KeyLeft, KeyRight, KeyUp, KeyDown} :: Turn(pan, key, p, vw, vh) == pan
  {}

  /** A cache opens exactly when it has a whole header with the right magic; then its dimensions are those that
      stand in the header. */
  lemma OpenCacheIff(file: Bytes)
    ensures OpenCache(file).Opened? <==> |file| >= 16 && file[..4] == Ascii("R565")
    ensures OpenCache(file).Opened? ==>
              OpenCache(file).picture == Picture(file, Le(file[8..12]), Le(file[12..16]))
  {
    hide Le;
    assert MAGIC == Ascii("R565");
  }

  // ---- every pixel can be brought into view ----

  /** A key press and the draw that follows it. */
  function Turn(pan: Pan, key: Key, p: Picture, vw: nat, vh: nat): Pan {
    Clamped(Moved(pan, key), p.imgW, p.imgH, vw, vh)
  }

  function Turns(pan: Pan, keys: seq<Key>, p: Picture, vw: nat, vh: nat): Pan
    decreases |keys|
  {
    if keys == [] then pan else Turns(Turn(pan, keys[0], p, vw, vh), keys[1..], p, vw, vh)
  }

  predicate Visible(pan: Pan, tx: nat, ty: nat, vw: nat, vh: nat) {
    pan.x <= tx < pan.x + vw && pan.y <= ty < pan.y + vh
  }

  /** How many presses along one axis bring column `t` into a window `vw` wide at `x`. */
  function Presses(x: int, t: int, vw: nat): nat {
    if t < x then (x - t + PAN_STEP - 1) / PAN_STEP
    else if t >= x + vw then (t - x - vw + PAN_STEP) / PAN_STEP
    else 0
  }

  /** A press towards the target brings it exactly one press nearer. */
  lemma Towards(x: int, t: int, vw: nat, size: nat)
    requires 0 <= x <= Max0(size - vw) && 0 <= t < size && PAN_STEP <= vw && Presses(x, t, vw) > 0
    ensures var d := if t < x then -PAN_STEP else PAN_STEP;
            Presses(Clamp(x + d, 0, Max0(size - vw)), t, vw) == Presses(x, t, vw) - 1
  {}

  /** No press brings it nearer than that. */
  lemma AtMostOne(x: int, t: int, vw: nat, size: nat, d: int)
    requires 0 <= x <= Max0(size - vw) && -PAN_STEP <= d <= PAN_STEP
    ensures Presses(Clamp(x + d, 0, Max0(size - vw)), t, vw) >= Presses(x, t, vw) - 1
  {}

  /** The number of key presses that bring pixel (tx, ty) into view. */
  function Distance(pan: Pan, tx: nat, ty: nat, vw: nat, vh: nat): nat {
    Presses(pan.x, tx, vw) + Presses(pan.y, ty, vh)
  }

  /** From every drawn state every pixel can be brought into view in that many turns. */
  lemma {:induction false} Coverage(pan: Pan, p: Picture, tx: nat, ty: nat, vw: nat, vh: nat) returns (keys: seq<Key>)
    requires pan == Clamped(pan, p.imgW, p.imgH, vw, vh) && PAN_STEP <= vw && PAN_STEP <= vh
    requires tx < p.imgW && ty < p.imgH
    ensures |keys| == Distance(pan, tx, ty, vw, vh)
    ensures Visible(Turns(pan, keys, p, vw, vh), tx, ty, vw, vh)
    decreases Distance(pan, tx, ty, vw, vh)
  {
    ClampedWindow(pan, p.imgW, p.imgH, vw, vh);
    if Distance(pan, tx, ty, vw, vh) == 0 {
      keys := [];
    } else {
      var key;
      if Presses(pan.x, tx, vw) > 0 {
        key := if tx < pan.x then KeyLeft else KeyRight;
        Towards(pan.x, tx, vw, p.imgW);
      } else {
        key := if ty < pan.y then KeyUp else KeyDown;
        Towards(pan.y, ty, vh, p.imgH);
      }
      var next := Turn(pan, key, p, vw, vh);
      ClampedWindow(Moved(pan, key), p.imgW, p.imgH, vw, vh);
      var rest := Coverage(next, p, tx, ty, vw, vh);
      keys := [key] + rest;
      assert keys[1..] == rest;
    }
  }

  /** And no key sequence does it in fewer. */
  lemma {:induction false} NoShorter(pan: Pan, p: Picture, tx: nat, ty: nat, vw: nat, vh: nat, keys: seq<Key>)
    requires pan == Clamped(pan, p.imgW, p.imgH, vw, vh)
    requires Visible(Turns(pan, keys, p, vw, vh), tx, ty, vw, vh)
    ensures Distance(pan, tx, ty, vw, vh) <= |keys|
    decreases |keys|
  {
    if keys != [] {
      var moved := Moved(pan, keys[0]);
      ClampedWindow(pan, p.imgW, p.imgH, vw, vh);
      ClampedWindow(moved, p.imgW, p.imgH, vw, vh);
      NoShorter(Turn(pan, keys[0], p, vw, vh), p, tx, ty, vw, vh, keys[1..]);
      AtMostOne(pan.x, tx, vw, p.imgW, moved.x - pan.x);
      AtMostOne(pan.y, ty, vh, p.imgH, moved.y - pan.y);
    }
  }
}
