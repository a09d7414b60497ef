/** The RGBA pixel buffer that screens draw into. */
module Canvas {
  import opened ByteOrder
  import opened Rgb565
  import opened RowGrid

  /** The four byte stores of a pixel. */
  method PutPixel(pix: array<byte>, o: nat, c: Rgb)
    requires o + 4 <= pix.Length
    modifies pix
    ensures pix[..] == Splice(old(pix[..]), o, Rgba(c))
    ensures pix[..o + 4] == old(pix[..o]) + Rgba(c)
  {
    pix[o] := c.r;
    pix[o + 1] := c.g;
    pix[o + 2] := c.b;
    pix[o + 3] := 0xff;
  }
}
