/** The words and pixels of the model in the bytes of files and buffers. */
module PixelBytes {
  import opened ByteOrder
  import opened Rgb565
  import opened ImageBytes

  lemma FourOf(p: Bytes, i: nat, s: Bytes)
    requires i + 4 <= |p| && |s| == 4 && p[i..i + 4] == s
    ensures p[i] == s[0] && p[i + 1] == s[1] && p[i + 2] == s[2] && p[i + 3] == s[3]
  {
    assert p[i..i + 4][0] == p[i] && p[i..i + 4][1] == p[i + 1];
    assert p[i..i + 4][2] == p[i + 2] && p[i..i + 4][3] == p[i + 3];
  }

  lemma TwoOf(p: Bytes, i: nat, s: Bytes)
    requires i + 2 <= |p| && |s| == 2 && p[i..i + 2] == s
    ensures p[i] == s[0] && p[i + 1] == s[1]
  {
    assert p[i..i + 2][0] == p[i] && p[i..i + 2][1] == p[i + 1];
  }

  lemma WordIs565(r: byte, g: byte, b: byte)
    ensures Is565(Lo(Pack(Rgb(r, g, b))), Hi(Pack(Rgb(r, g, b))), r, g, b)
  {
    BytesOfWord(Pack(Rgb(r, g, b)));
  }

  lemma ExpandedIs(pix: Bytes, o: nat, lo: byte, hi: byte)
    requires o + 4 <= |pix|
    requires var s := Rgba(Expand(Word(lo, hi)));
             pix[o] == s[0] && pix[o + 1] == s[1] && pix[o + 2] == s[2] && pix[o + 3] == s[3]
    ensures IsExpanded(pix, o, lo, hi)
  {
    hide ShowsWord, Expand, Rgba;
    ShowsExpanded(pix, o, Word(lo, hi));
  }

  lemma ShowsExpanded(pix: Bytes, o: nat, v: word)
    requires o + 4 <= |pix|
    requires var s := Rgba(Expand(v));
             pix[o] == s[0] && pix[o + 1] == s[1] && pix[o + 2] == s[2] && pix[o + 3] == s[3]
    ensures ShowsWord(pix, o, v)
  {
    hide Expand;
    ExpandFields(v);
  }

  lemma ExpandFields(v: word)
    ensures var r: int, g: int, b: int, c := v / 0x800, v / 0x20 % 0x40, v % 0x20, Expand(v);
            c.r == r * 8 + r / 4 && c.g == g * 4 + g / 0x10 && c.b == b * 8 + b / 4
  {}
}
