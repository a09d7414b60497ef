/** Unsigned integers as byte sequences of a fixed width. */
module ByteOrder {

  type byte = x: int | 0 <= x < 0x100

  type Bytes = seq<byte>

  function Pow256(k: nat): (n: nat)
    ensures n >= 1
  {
    if k == 0 then 1 else 0x100 * Pow256(k - 1)
  }

  /** Big-endian value, most significant byte first. */
  function Be(s: Bytes): nat {
    if s == [] then 0 else 0x100 * Be(s[..|s| - 1]) + s[|s| - 1]
  }

  function BeBytes(n: nat, width: nat): (s: Bytes)
    ensures |s| == width
  {
    if width == 0 then [] else BeBytes(n / 0x100, width - 1) + [n % 0x100]
  }

  /** Little-endian value, least significant byte first. */
  function Le(s: Bytes): nat {
    if s == [] then 0 else s[0] + 0x100 * Le(s[1..])
  }

  function LeBytes(n: nat, width: nat): (s: Bytes)
    ensures |s| == width
  {
    if width == 0 then [] else [n % 0x100] + LeBytes(n / 0x100, width - 1)
  }

  lemma {:induction false} BeRoundTrip(n: nat, width: nat)
    requires n < Pow256(width)
    ensures Be(BeBytes(n, width)) == n
  {
    if width > 0 {
      var high := BeBytes(n / 0x100, width - 1);
      BeRoundTrip(n / 0x100, width - 1);
      assert BeBytes(n, width)[..width - 1] == high;
    }
  }

  lemma {:induction false} LeRoundTrip(n: nat, width: nat)
    requires n < Pow256(width)
    ensures Le(LeBytes(n, width)) == n
  {
    if width > 0 {
      LeRoundTrip(n / 0x100, width - 1);
      assert LeBytes(n, width)[1..] == LeBytes(n / 0x100, width - 1);
    }
  }

  lemma {:induction false} BeBound(s: Bytes)
    ensures Be(s) < Pow256(|s|)
  {
    if s != [] {
      BeBound(s[..|s| - 1]);
    }
  }

  /** A slice that lies in the second part. */
  lemma SliceBehind(a: Bytes, b: Bytes, i: nat, j: nat)
    requires i <= j <= |b|
    ensures (a + b)[|a| + i..|a| + j] == b[i..j]
  {}

  lemma Associate(a: Bytes, b: Bytes, c: Bytes)
    ensures a + (b + c) == (a + b) + c
  {}

  /** Which byte counts for what. */
  lemma FourBytes(s: Bytes)
    requires |s| == 4
    ensures var a: int, b: int, c: int, d: int := s[0], s[1], s[2], s[3];
            && Be(s) == a * 0x100_0000 + b * 0x1_0000 + c * 0x100 + d
            && Le(s) == a + b * 0x100 + c * 0x1_0000 + d * 0x100_0000
  {
    var a, b, c := s[..3], s[..2], s[..1];
    assert a[..2] == b && b[..1] == c && c[..0] == [];
    assert Be(c) == s[0] && Be(b) == 0x100 * Be(c) + s[1] && Be(a) == 0x100 * Be(b) + s[2];
    var x, y, z := s[1..], s[2..], s[3..];
    assert x[1..] == y && y[1..] == z && z[1..] == [];
    assert Le(z) == s[3] && Le(y) == s[2] + 0x100 * Le(z) && Le(x) == s[1] + 0x100 * Le(y);
  }

  /** The bytes of plain text. */
  function Ascii(s: string): (t: Bytes)
    requires forall i | 0 <= i < |s| :: s[i] < '\U{0080}'
    ensures |t| == |s| && forall i | 0 <= i < |s| :: t[i] == s[i] as int
  {
    seq(|s|, i requires 0 <= i < |s| => s[i] as int)
  }
}
