/** RGB565 pixel words: the packing, the byte order and the 5/6/5 -> 8/8/8 expansion that the
    converter, the viewer, the framebuffer writer and the mirror all spell out inline. A shift is
    written as a multiplication or division, and an or of fields that share no bit as a sum: PackIsOr,
    ExpandIsOr and WordIsOr connect these to the source's shifts, masks and ors. */
module Rgb565 {
  import opened ByteOrder
  import opened Bits

  type word = x: int | 0 <= x < 0x1_0000

  datatype Rgb = Rgb(r: byte, g: byte, b: byte)

  /** `uint16(r>>3)<<11 | uint16(g>>2)<<5 | uint16(b>>3)` */
  function Pack(c: Rgb): word {
    c.r / 8 * 0x800 + c.g / 4 * 0x20 + c.b / 8
  }

  /** Low and high byte of a word, as both little-endian writers store it. */
  function Lo(v: word): byte { v % 0x100 }

  function Hi(v: word): byte { v / 0x100 }

  function Word(lo: byte, hi: byte): word { lo + hi * 0x100 }

  /** Five bits to eight, six bits to eight, by repeating the high bits below. */
  function Widen5(x: int): byte
    requires 0 <= x < 0x20
  {
    x * 8 + x / 4
  }

  function Widen6(x: int): byte
    requires 0 <= x < 0x40
  {
    x * 4 + x / 16
  }

  function Expand(v: word): Rgb {
    Rgb(Widen5(v / 0x800), Widen6(v / 0x20 % 0x40), Widen5(v % 0x20))
  }

  lemma WordOfBytes(lo: byte, hi: byte)
    ensures LoHi(Word(lo, hi)) == [lo, hi]
  {}

  lemma BytesOfWord(v: word)
    ensures Word(Lo(v), Hi(v)) == v
  {}

  /** The three fields of a word. */
  lemma Fields(r: int, g: int, b: int)
    requires 0 <= r < 0x20 && 0 <= g < 0x40 && 0 <= b < 0x20
    ensures var v := r * 0x800 + g * 0x20 + b;
            v / 0x800 == r && v / 0x20 % 0x40 == g && v % 0x20 == b
  {
    var v := r * 0x800 + g * 0x20 + b;
    var q := r * 0x40 + g;
    assert v == q * 0x20 + b;
    assert v / 0x20 == q && v % 0x20 == b;
    assert v / 0x800 == r && q % 0x40 == g;
  }

  /** The fields of a packed word are the high bits of the channels. */
  lemma PackFields(c: Rgb)
    ensures Pack(c) / 0x800 == c.r / 8 && Pack(c) / 0x20 % 0x40 == c.g / 4 && Pack(c) % 0x20 == c.b / 8
  {
    Fields(c.r / 8, c.g / 4, c.b / 8);
  }

  lemma WidenNarrow(x: int)
    ensures 0 <= x < 0x20 ==> Widen5(x) / 8 == x
    ensures 0 <= x < 0x40 ==> Widen6(x) / 4 == x
  {}

  /** Packing an expanded word gives the word back, so a second trip through 565 loses nothing. */
  lemma PackExpand(v: word)
    ensures Pack(Expand(v)) == v
  {
    var q := v / 0x20;
    Fields(q / 0x40, q % 0x40, v % 0x20);
    WidenNarrow(q / 0x40);
    WidenNarrow(q % 0x40);
    WidenNarrow(v % 0x20);
  }

  lemma QuantisationError(c: Rgb)
    ensures var q := Expand(Pack(c));
            -7 <= q.r - c.r <= 7 && -3 <= q.g - c.g <= 3 && -7 <= q.b - c.b <= 7
  {
    PackFields(c);
  }

  // ---- the source's shifts, ors and masks ----

  lemma PackIsOr(c: Rgb)
    ensures Pack(c) == Or(Or(Shl(Shr(c.r, 3), 11), Shl(Shr(c.g, 2), 5)), Shr(c.b, 3))
  {
    hide Or, Shl, Shr;
    var r, g, b := c.r / 8, c.g / 4, c.b / 8;
    Powers();
    Shifts(c.r);
    Shifts(c.g);
    Shifts(c.b);
    Shifts(r);
    Shifts(g);
    OrIsSum(r, 11, g * 0x20);
    Shifts(r * 0x40 + g);
    OrIsSum(r * 0x40 + g, 5, b);
  }

  /** A five-bit or a six-bit field repeated below itself. */
  lemma WidenIsOr(x: nat)
    ensures x < 0x20 ==> Widen5(x) == Or(Shl(x, 3), Shr(x, 2))
    ensures x < 0x40 ==> Widen6(x) == Or(Shl(x, 2), Shr(x, 4))
  {
    hide Or, Shl, Shr;
    Powers();
    Shifts(x);
    if x < 0x40 {
      OrIsSum(x, 2, x / 0x10);
    }
    if x < 0x20 {
      OrIsSum(x, 3, x / 4);
    }
  }

  /** The low byte of a number has the same lowest bits. */
  lemma LowByte(x: nat)
    ensures x % 0x100 % 0x40 == x % 0x40 && x % 0x100 % 0x20 == x % 0x20
  {
    var q, r := x / 0x100, x % 0x100;
    Unique(x, 0x40, 4 * q + r / 0x40, r % 0x40);
    Unique(x, 0x20, 8 * q + r / 0x20, r % 0x20);
  }

  /** The fields, whether masked in a word or in its low byte. */
  lemma FieldsAreMasked(v: word)
    ensures And(Shr(v, 11), 0x1f) == And(Shr(v, 11) % 0x100, 0x1f) == v / 0x800
    ensures And(Shr(v, 5), 0x3f) == And(Shr(v, 5) % 0x100, 0x3f) == v / 0x20 % 0x40
    ensures And(v, 0x1f) == And(v % 0x100, 0x1f) == v % 0x20
  {
    hide And, Shr;
    var r, g := v / 0x800, v / 0x20;
    assert r < 0x20;
    Shifts(v);
    RedMasked(r);
    Masks(g);
    Masks(g % 0x100);
    LowByte(g);
    Masks(v);
    Masks(v % 0x100);
    LowByte(v);
  }

  lemma RedMasked(r: nat)
    requires r < 0x20
    ensures And(r, 0x1f) == And(r % 0x100, 0x1f) == r
  {
    hide And;
    Masks(r);
    assert r % 0x20 == r == r % 0x100;
  }

  lemma ExpandIsOr(v: word)
    ensures var r, g, b, c := And(Shr(v, 11), 0x1f), And(Shr(v, 5), 0x3f), And(v, 0x1f), Expand(v);
            c.r == Or(Shl(r, 3), Shr(r, 2)) && c.g == Or(Shl(g, 2), Shr(g, 4)) && c.b == Or(Shl(b, 3), Shr(b, 2))
  {
    hide And, Or, Shl, Shr, Widen5, Widen6;
    FieldsAreMasked(v);
    WidenIsOr(v / 0x800);
    WidenIsOr(v / 0x20 % 0x40);
    WidenIsOr(v % 0x20);
  }

  lemma WordIsOr(lo: byte, hi: byte)
    ensures Word(lo, hi) == Or(lo, Shl(hi, 8))
    ensures Hi(Word(lo, hi)) == Shr(Word(lo, hi), 8)
  {
    hide Or, Shl, Shr;
    Powers();
    Shifts(hi);
    Shifts(Word(lo, hi));
    OrIsSum(hi, 8, lo);
    OrCommutes(lo, Shl(hi, 8));
  }

  // ---- rows of pixels ----

  function WordAt(s: Bytes, i: nat): word
    requires 2 * i + 1 < |s|
  {
    Word(s[2 * i], s[2 * i + 1])
  }

  function RgbAt(p: Bytes, i: nat): Rgb
    requires 4 * i + 2 < |p|
  {
    Rgb(p[4 * i], p[4 * i + 1], p[4 * i + 2])
  }

  /** An opaque RGBA pixel. */
  function Rgba(c: Rgb): (p: Bytes)
    ensures |p| == 4
  {
    [c.r, c.g, c.b, 0xff]
  }

  function LoHi(v: word): (s: Bytes)
    ensures |s| == 2
  {
    [Lo(v), Hi(v)]
  }

  /** Words are stored little-endian. */
  lemma LoHiLittleEndian(v: word)
    ensures Le(LoHi(v)) == v
  {
    assert LoHi(v)[1..] == [Hi(v)];
    assert Le([Hi(v)]) == Hi(v) + 0x100 * Le([]);
  }

  /** `n` words to RGBA pixels, each by `widen`. */
  function Widened(widen: word -> Rgb, s: Bytes, n: nat): (p: Bytes)
    requires |s| == 2 * n
    ensures |p| == 4 * n
  {
    if n == 0 then [] else Rgba(widen(WordAt(s, 0))) + Widened(widen, s[2..], n - 1)
  }

  /** `n` RGBA pixels to words, each by `narrow`. */
  function Narrowed(narrow: Rgb -> word, p: Bytes, n: nat): (s: Bytes)
    requires |p| == 4 * n
    ensures |s| == 2 * n
  {
    if n == 0 then [] else LoHi(narrow(RgbAt(p, 0))) + Narrowed(narrow, p[4..], n - 1)
  }

  function ExpandRow(s: Bytes, n: nat): (p: Bytes)
    requires |s| == 2 * n
    ensures |p| == 4 * n
  {
    Widened(Expand, s, n)
  }

  function PackRow(p: Bytes, n: nat): (s: Bytes)
    requires |p| == 4 * n
    ensures |s| == 2 * n
  {
    Narrowed(Pack, p, n)
  }

  lemma {:induction false} WidenedAt(widen: word -> Rgb, s: Bytes, n: nat, i: nat)
    requires |s| == 2 * n && i < n
    ensures Widened(widen, s, n)[4 * i..4 * i + 4] == Rgba(widen(WordAt(s, i)))
  {
    hide Word;
    if i > 0 {
      WidenedAt(widen, s[2..], n - 1, i - 1);
      var head, rest := Rgba(widen(WordAt(s, 0))), Widened(widen, s[2..], n - 1);
      SliceBehind(head, rest, 4 * (i - 1), 4 * (i - 1) + 4);
    }
  }

  lemma ExpandRowAt(s: Bytes, n: nat, i: nat)
    requires |s| == 2 * n && i < n
    ensures ExpandRow(s, n)[4 * i..4 * i + 4] == Rgba(Expand(WordAt(s, i)))
  {
    WidenedAt(Expand, s, n, i);
  }

  lemma {:induction false} NarrowedAt(narrow: Rgb -> word, p: Bytes, n: nat, i: nat)
    requires |p| == 4 * n && i < n
    ensures Narrowed(narrow, p, n)[2 * i..2 * i + 2] == LoHi(narrow(RgbAt(p, i)))
  {
    if i > 0 {
      NarrowedAt(narrow, p[4..], n - 1, i - 1);
      var head, rest := LoHi(narrow(RgbAt(p, 0))), Narrowed(narrow, p[4..], n - 1);
      SliceBehind(head, rest, 2 * (i - 1), 2 * (i - 1) + 2);
    }
  }

  lemma PackRowAt(p: Bytes, n: nat, i: nat)
    requires |p| == 4 * n && i < n
    ensures PackRow(p, n)[2 * i..2 * i + 2] == LoHi(Pack(RgbAt(p, i)))
  {
    NarrowedAt(Pack, p, n, i);
  }

  lemma {:induction false} WidenedAppend(widen: word -> Rgb, a: Bytes, b: Bytes, m: nat, n: nat)
    requires |a| == 2 * m && |b| == 2 * n
    ensures Widened(widen, a + b, m + n) == Widened(widen, a, m) + Widened(widen, b, n)
  {
    hide Word, Rgba;
    if m == 0 {
      assert a + b == b;
    } else {
      WidenedAppend(widen, a[2..], b, m - 1, n);
      assert (a + b)[2..] == a[2..] + b && WordAt(a + b, 0) == WordAt(a, 0);
      var head, x, y := Rgba(widen(WordAt(a, 0))), Widened(widen, a[2..], m - 1), Widened(widen, b, n);
      assert Widened(widen, a + b, m + n) == head + (x + y) && Widened(widen, a, m) == head + x;
      hide *;
      Associate(head, x, y);
    }
  }

  lemma {:induction false} NarrowedAppend(narrow: Rgb -> word, a: Bytes, b: Bytes, m: nat, n: nat)
    requires |a| == 4 * m && |b| == 4 * n
    ensures Narrowed(narrow, a + b, m + n) == Narrowed(narrow, a, m) + Narrowed(narrow, b, n)
  {
    hide LoHi;
    if m == 0 {
      assert a + b == b;
    } else {
      NarrowedAppend(narrow, a[4..], b, m - 1, n);
      assert (a + b)[4..] == a[4..] + b && RgbAt(a + b, 0) == RgbAt(a, 0);
      var head, x, y := LoHi(narrow(RgbAt(a, 0))), Narrowed(narrow, a[4..], m - 1), Narrowed(narrow, b, n);
      assert Narrowed(narrow, a + b, m + n) == head + (x + y) && Narrowed(narrow, a, m) == head + x;
      hide *;
      Associate(head, x, y);
    }
  }

  lemma LoHiWord(s: Bytes)
    requires |s| >= 2
    ensures LoHi(WordAt(s, 0)) == s[..2]
  {
    WordOfBytes(s[0], s[1]);
  }

  lemma NarrowedCons(narrow: Rgb -> word, c: Rgb, rest: Bytes, n: nat)
    requires |rest| == 4 * n
    ensures Narrowed(narrow, Rgba(c) + rest, n + 1) == LoHi(narrow(c)) + Narrowed(narrow, rest, n)
  {
    assert (Rgba(c) + rest)[4..] == rest;
    assert RgbAt(Rgba(c) + rest, 0) == c;
  }

  ghost predicate Undoes(narrow: Rgb -> word, widen: word -> Rgb) {
    forall v: word :: narrow(widen(v)) == v
  }

  lemma {:induction false} NarrowedWidened(widen: word -> Rgb, narrow: Rgb -> word, s: Bytes, n: nat)
    requires |s| == 2 * n && Undoes(narrow, widen)
    ensures Narrowed(narrow, Widened(widen, s, n), n) == s
  {
    hide Word, LoHi;
    if n > 0 {
      var v := WordAt(s, 0);
      NarrowedCons(narrow, widen(v), Widened(widen, s[2..], n - 1), n - 1);
      NarrowedWidened(widen, narrow, s[2..], n - 1);
      LoHiWord(s);
      assert s == s[..2] + s[2..];
    }
  }

  /** Packing expanded pixels reproduces the bytes they were expanded from. */
  lemma PackExpandRow(s: Bytes, n: nat)
    requires |s| == 2 * n
    ensures PackRow(ExpandRow(s, n), n) == s
  {
    forall v: word
      ensures Pack(Expand(v)) == v
    {
      PackExpand(v);
    }
    assert Undoes(Pack, Expand);
    NarrowedWidened(Expand, Pack, s, n);
  }

  lemma WidenedNext(widen: word -> Rgb, s: Bytes, x: nat)
    requires 2 * x + 2 <= |s|
    ensures Widened(widen, s[..2 * x + 2], x + 1) == Widened(widen, s[..2 * x], x) + Rgba(widen(WordAt(s, x)))
  {
    hide Word;
    var last := s[2 * x..2 * x + 2];
    assert s[..2 * x + 2] == s[..2 * x] + last;
    WidenedAppend(widen, s[..2 * x], last, x, 1);
    assert WordAt(last, 0) == WordAt(s, x);
    assert Widened(widen, last, 1) == Rgba(widen(WordAt(s, x))) + [];
  }

  lemma NarrowedNext(narrow: Rgb -> word, p: Bytes, x: nat)
    requires 4 * x + 4 <= |p|
    ensures Narrowed(narrow, p[..4 * x + 4], x + 1) == Narrowed(narrow, p[..4 * x], x) + LoHi(narrow(RgbAt(p, x)))
  {
    hide Lo, Hi;
    var last := p[4 * x..4 * x + 4];
    assert p[..4 * x + 4] == p[..4 * x] + last;
    NarrowedAppend(narrow, p[..4 * x], last, x, 1);
    assert RgbAt(last, 0) == RgbAt(p, x);
    assert Narrowed(narrow, last, 1) == LoHi(narrow(RgbAt(p, x))) + [];
  }

  /** One more pixel. */
  lemma ExpandRowNext(s: Bytes, x: nat)
    requires 2 * x + 2 <= |s|
    ensures ExpandRow(s[..2 * x + 2], x + 1) == ExpandRow(s[..2 * x], x) + Rgba(Expand(WordAt(s, x)))
  {
    WidenedNext(Expand, s, x);
  }

  lemma PackRowNext(p: Bytes, x: nat)
    requires 4 * x + 4 <= |p|
    ensures PackRow(p[..4 * x + 4], x + 1) == PackRow(p[..4 * x], x) + LoHi(Pack(RgbAt(p, x)))
  {
    NarrowedNext(Pack, p, x);
  }
}
