/** From a PNG on disk to the LCD panel: the converter, the viewer, the framebuffer writer and the
    mirror put together. */
module Pipeline {
  import opened ByteOrder
  import opened Rgb565
  import opened RowGrid
  import opened R565Rows
  import opened PngToR565
  import opened PngChunks
  import opened ImageBytes
  import opened KeyMap
  import opened ImageView
  import Fb = Framebuffer

  /** What the viewer makes of a converted file: a complete picture whose stored words are the packed
      source pixels. */
  lemma CacheOfConverted(out: Bytes, layout: Layout, image: Image)
    requires layout.Valid() && |image| == layout.height && AllOfWidth(image, layout.RowBytes())
    requires Holds(out, layout, image)
    ensures OpenCache(out) == Opened(Picture(out, layout.width, layout.height))
    ensures Picture(out, layout.width, layout.height).Complete()
  {
    hide HasPixels, HasLayout, OpenCache, Picture.Complete;
    CacheOpens(out, layout);
    CacheComplete(out, layout);
  }

  lemma CacheOpens(out: Bytes, layout: Layout)
    requires layout.Valid() && HasLayout(out, layout)
    ensures OpenCache(out) == Opened(Picture(out, layout.width, layout.height))
  {
    hide Le, Header;
    HeaderIs(out, layout);
    assert MAGIC == Ascii("R565");
  }

  lemma CacheComplete(out: Bytes, layout: Layout)
    requires HasLayout(out, layout)
    ensures Picture(out, layout.width, layout.height).Complete()
  {
    hide Header;
    StartIsProduct(layout.height, 2 * layout.width);
    Doubled(layout.height, layout.width);
  }

  lemma StoredPixel(out: Bytes, layout: Layout, image: Image, x: nat, y: nat)
    requires layout.Valid() && |image| == layout.height && AllOfWidth(image, layout.RowBytes())
    requires Holds(out, layout, image) && x < layout.width && y < layout.height
    ensures Picture(out, layout.width, layout.height).Has(x, y)
    ensures Stored(Picture(out, layout.width, layout.height), x, y) == Pack(PixelOf(image, layout, x, y))
  {
    hide Pack;
    CacheOfConverted(out, layout, image);
    Picture(out, layout.width, layout.height).CompleteHas(x, y);
    StoredOffset(Picture(out, layout.width, layout.height), x, y, Pack(PixelOf(image, layout, x, y)));
  }

  /** The viewer's canvas on the panel: view rows, then the footer. */
  ghost predicate OnPanel(g: Fb.Geometry, vw: nat, vh: nat) {
    g.w == vw && g.h == vh + FOOTER_H
  }

  /** Presenting a drawn view puts the stored words themselves into the framebuffer, those that the file has. */
  lemma PanelShowsFile(p: Picture, pan: Pan, vw: nat, vh: nat, img: Bytes, g: Fb.Geometry,
                       before: Bytes, now: Bytes, rx: nat, ry: nat)
    requires pan == Clamped(pan, p.imgW, p.imgH, vw, vh) && OnPanel(g, vw, vh)
    requires g.Fits(before) && g.IsCanvas(img)
    requires Drawn(img, p, pan, vw, vh, vh) && g.Presented(now, before, img, g.h)
    requires rx < vw && ry < vh && rx < p.imgW && ry < p.imgH
    ensures pan.x + rx < p.imgW && 0 <= pan.x && pan.y + ry < p.imgH && 0 <= pan.y
    ensures p.Has(pan.x + rx, pan.y + ry) ==>
              g.Words(now, ry)[2 * rx..2 * rx + 2] == LoHi(Stored(p, pan.x + rx, pan.y + ry))
  {
    hide Expand, Pack, Stored, RowOf, PackRow, LoHi, Drawn;
    ClampedWindow(pan, p.imgW, p.imgH, vw, vh);
    ViewCell(img, p, pan, vw, vh, rx, ry);
    if !p.Has(pan.x + rx, pan.y + ry) {
      return;
    }
    var v := Stored(p, pan.x + rx, pan.y + ry);
    var pixels := g.Pixels(img, ry);
    assert pixels == RowOf(img, 4 * vw, ry);
    Fb.PixelInRow(pixels, rx, Expand(v));
    assert g.RowPresented(now, before, img, g.h, ry);
    assert g.Words(now, ry) == PackRow(pixels, vw);
    PackRowAt(pixels, vw, rx);
    PackExpand(v);
  }

  /** Everything together: convert any PNG of any image, open the result, pan anywhere, draw and
      present. Each panel cell over the image holds the little-endian 565 word of the source pixel
      under it, and the mirror shows that word expanded. */
  lemma PanelShowsImage(out: Bytes, layout: Layout, image: Image, pan: Pan, vw: nat, vh: nat, img: Bytes,
                        g: Fb.Geometry, before: Bytes, now: Bytes, rx: nat, ry: nat)
    requires layout.Valid() && |image| == layout.height && AllOfWidth(image, layout.RowBytes())
    requires Holds(out, layout, image) && OnPanel(g, vw, vh)
    requires pan == Clamped(pan, layout.width, layout.height, vw, vh)
    requires g.Fits(before) && g.IsCanvas(img)
    requires Drawn(img, Picture(out, layout.width, layout.height), pan, vw, vh, vh)
    requires g.Presented(now, before, img, g.h)
    requires rx < vw && ry < vh && rx < layout.width && ry < layout.height
    ensures 0 <= pan.x && pan.x + rx < layout.width && 0 <= pan.y && pan.y + ry < layout.height
    ensures var v := Pack(PixelOf(image, layout, pan.x + rx, pan.y + ry));
            && g.Words(now, ry)[2 * rx..2 * rx + 2] == LoHi(v)
            && g.IsCanvas(Flat(Fb.MirrorRows(now, g, g.h)))
            && g.Pixels(Flat(Fb.MirrorRows(now, g, g.h)), ry)[4 * rx..4 * rx + 4] == Rgba(Expand(v))
  {
    hide Expand, Pack, Stored, RowOf, LoHi, Drawn, Holds, ExpandRow, PixelOf, Picture.Has, Flat, Fb.MirrorRows;
    var p := Picture(out, layout.width, layout.height);
    PanelShowsFile(p, pan, vw, vh, img, g, before, now, rx, ry);
    StoredPixel(out, layout, image, pan.x + rx, pan.y + ry);
    var words := g.Words(now, ry);
    Fb.MirrorCanvas(now, g, ry);
    ExpandRowAt(words, g.w, rx);
    Fb.WordInRow(words, rx, Pack(PixelOf(image, layout, pan.x + rx, pan.y + ry)));
  }

  // ---- a run of the viewer on the panel ----

  /** The two bytes of a panel cell are the word of the source pixel under it. */
  ghost predicate CellShows(g: Fb.Geometry, mem: Bytes, layout: Layout, image: Image, pan: Pan, rx: nat, ry: nat) {
    && 0 <= pan.x && pan.x + rx < layout.width && 0 <= pan.y && pan.y + ry < layout.height
    && PixelStored(mem, ry * g.stride + 2 * rx, image, layout.channels, pan.x + rx, pan.y + ry)
  }

  /** The panel shows the window of the image at the pan offset. */
  ghost predicate Shows(g: Fb.Geometry, mem: Bytes, layout: Layout, image: Image, pan: Pan, vw: nat, vh: nat) {
    && g.Fits(mem)
    && forall rx: nat, ry: nat | rx < vw && ry < vh && rx < layout.width && ry < layout.height ::
         CellShows(g, mem, layout, image, pan, rx, ry)
  }

  lemma PresentedShows(out: Bytes, layout: Layout, image: Image, pan: Pan, vw: nat, vh: nat, img: Bytes,
                       g: Fb.Geometry, before: Bytes, now: Bytes)
    requires layout.Valid() && |image| == layout.height && AllOfWidth(image, layout.RowBytes())
    requires Holds(out, layout, image) && OnPanel(g, vw, vh)
    requires pan == Clamped(pan, layout.width, layout.height, vw, vh)
    requires g.Fits(before) && g.Fits(now) && g.IsCanvas(img)
    requires Drawn(img, Picture(out, layout.width, layout.height), pan, vw, vh, vh)
    requires g.Presented(now, before, img, g.h)
    ensures Shows(g, now, layout, image, pan, vw, vh)
  {
    hide Drawn, Holds, CellShows, Clamped, OnPanel, Fb.Geometry.Presented, Fb.Geometry.Fits, Fb.Geometry.IsCanvas;
    forall rx: nat, ry: nat | rx < vw && ry < vh && rx < layout.width && ry < layout.height
      ensures CellShows(g, now, layout, image, pan, rx, ry)
    {
      PresentedCell(out, layout, image, pan, vw, vh, img, g, before, now, rx, ry);
    }
  }

  lemma PresentedCell(out: Bytes, layout: Layout, image: Image, pan: Pan, vw: nat, vh: nat, img: Bytes,
                      g: Fb.Geometry, before: Bytes, now: Bytes, rx: nat, ry: nat)
    requires layout.Valid() && |image| == layout.height && AllOfWidth(image, layout.RowBytes())
    requires Holds(out, layout, image) && OnPanel(g, vw, vh)
    requires pan == Clamped(pan, layout.width, layout.height, vw, vh)
    requires g.Fits(before) && g.Fits(now) && g.IsCanvas(img)
    requires Drawn(img, Picture(out, layout.width, layout.height), pan, vw, vh, vh)
    requires g.Presented(now, before, img, g.h)
    requires rx < vw && ry < vh && rx < layout.width && ry < layout.height
    ensures CellShows(g, now, layout, image, pan, rx, ry)
  {
    hide Pack, LoHi, Drawn, Holds, Expand, RowOf, Rgba, PixelStored, PixelOf, Clamped, Flat, Fb.MirrorRows;
    hide Fb.Geometry.Presented, Fb.Geometry.Fits, Fb.Geometry.IsCanvas, Fb.Geometry.Words, Fb.Geometry.Pixels;
    PanelShowsImage(out, layout, image, pan, vw, vh, img, g, before, now, rx, ry);
    g.WordAtOffset(now, ry, rx);
    var o := ry * g.stride + 2 * rx;
    PixelWord(now, o, layout, image, pan.x + rx, pan.y + ry);
  }

  /** Draws the view and presents it. */
  method Draw(iv: ImageView, canvas: array<byte>, d: Fb.Display, ghost layout: Layout, ghost image: Image)
    requires layout.Valid() && |image| == layout.height && AllOfWidth(image, layout.RowBytes())
    requires iv.picture == Picture(iv.picture.file, layout.width, layout.height)
    requires Holds(iv.picture.file, layout, image)
    requires d.Valid() && canvas != d.mem && d.g.IsCanvas(canvas[..]) && d.g.h >= 12
    modifies iv, canvas, d.mem
    ensures d.Valid() && d.g.IsCanvas(canvas[..]) && iv.ready == old(iv.ready)
    ensures var vw, vh := d.g.w, d.g.h - 12;
            && Pan(iv.panX, iv.panY) == Clamped(old(Pan(iv.panX, iv.panY)), layout.width, layout.height, vw, vh)
            && Shows(d.g, d.mem[..], layout, image, Pan(iv.panX, iv.panY), vw, vh)
  {
    hide Holds, Drawn, Shows;
    var vw, vh := d.g.w, d.g.h - 12;
    RowEnd(vh, d.g.h, 4 * vw);
    iv.DrawImage(canvas, vw, vh);
    ghost var before := d.mem[..];
    d.Present(canvas);
    ClampedWindow(old(Pan(iv.panX, iv.panY)), layout.width, layout.height, vw, vh);
    PresentedShows(iv.picture.file, layout, image, Pan(iv.panX, iv.panY), vw, vh, canvas[..], d.g, before, d.mem[..]);
  }

  /** A run from a PNG of any image until the viewer is left: convert it, open the result, draw, and draw
      again after each key. The panel ends up showing the window of the source image that the keys panned to. */
  method ShowPng(file: Bytes, inflate: Bytes -> Inflated, keys: seq<Key>, canvas: array<byte>, d: Fb.Display,
                 ghost image: Image, ghost layout: Layout, ghost crc: Bytes, ghost chunks: seq<Chunk>, ghost z: Bytes)
      returns (iv: ImageView)
    requires layout.Valid() && |crc| == 4 && Valid(chunks) && file == PngFile(layout, crc, chunks)
    requires inflate(IdatOf(chunks)) == Stream(z)
    requires Scanlines(z, image, layout.width, layout.height, layout.channels)
    requires d.Valid() && canvas != d.mem && d.g.IsCanvas(canvas[..]) && d.g.h >= 12 && KeyBack !in keys
    modifies canvas, d.mem
    ensures fresh(iv) && d.Valid() && d.g.IsCanvas(canvas[..])
    ensures var vw, vh := d.g.w, d.g.h - 12;
            && Pan(iv.panX, iv.panY)
               == Turns(Clamped(Pan(0, 0), layout.width, layout.height, vw, vh), keys, iv.picture, vw, vh)
            && Shows(d.g, d.mem[..], layout, image, Pan(iv.panX, iv.panY), vw, vh)
  {
    hide Holds, Shows, Turns, Convert, PngFile, Clamped, Scanlines, IsR565, IdatOf, OpenCache;
    var r := PNGToR565(file, inflate);
    ghost var out := EndToEnd(image, layout, crc, chunks, inflate, z);
    CacheOfConverted(out, layout, image);
    iv := new ImageView(OpenCache(r.file).picture, true);
    ghost var vw, vh := d.g.w, d.g.h - 12;
    Draw(iv, canvas, d, layout, image);
    ghost var from := Pan(iv.panX, iv.panY);
    TurnsNone(from, iv.picture, vw, vh);
    for i := 0 to |keys|
      invariant iv.ready && d.Valid() && d.g.IsCanvas(canvas[..])
      invariant Pan(iv.panX, iv.panY) == Turns(from, keys[..i], iv.picture, vw, vh)
      invariant Shows(d.g, d.mem[..], layout, image, Pan(iv.panX, iv.panY), vw, vh)
    {
      var pop := iv.Key(keys[i]);
      assert !pop;
      Draw(iv, canvas, d, layout, image);
      TurnsNext(from, keys, i, iv.picture, vw, vh);
    }
    assert keys[..|keys|] == keys;
  }

  lemma TurnsNone(pan: Pan, p: Picture, vw: nat, vh: nat)
    ensures Turns(pan, [], p, vw, vh) == pan
  {}

  lemma {:induction false} TurnsNext(pan: Pan, keys: seq<Key>, i: nat, p: Picture, vw: nat, vh: nat)
    requires i < |keys|
    ensures Turns(pan, keys[..i + 1], p, vw, vh) == Turn(Turns(pan, keys[..i], p, vw, vh), keys[i], p, vw, vh)
    decreases i
  {
    if i == 0 {
      assert keys[..1][1..] == [];
    } else {
      var next, rest := Turn(pan, keys[0], p, vw, vh), keys[1..];
      TurnsNext(next, rest, i - 1, p, vw, vh);
      assert keys[..i][1..] == rest[..i - 1] && keys[..i + 1][1..] == rest[..i];
    }
  }
}
