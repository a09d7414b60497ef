/** Rows of equal width laid end to end in a flat byte sequence. */
module RowGrid {
  import opened ByteOrder

  /** Where row `y` starts in rows of `n` bytes, as reading one row after another gets there. */
  function Start(y: nat, n: nat): nat {
    if y == 0 then 0 else Start(y - 1, n) + n
  }

  lemma {:induction false} StartIsProduct(y: nat, n: nat)
    ensures Start(y, n) == y * n
  {
    if y > 0 {
      StartIsProduct(y - 1, n);
      assert y * n == (y - 1) * n + n;
    }
  }

  /** Two bytes a pixel, in the orders in which the sizes and offsets multiply. */
  lemma Doubled(h: nat, w: nat)
    ensures h * (2 * w) == h * (w * 2) == h * w * 2 == 2 * w * h
  {}

  /** Four bytes a pixel. */
  lemma FourTimes(y: nat, w: nat)
    ensures y * (4 * w) == 4 * (y * w)
  {}

  lemma NextStart(y: nat, n: nat)
    ensures Start(y + 1, n) == Start(y, n) + n
  {}

  /** The product that the source computes for it. */
  method RowOffset(y: nat, n: nat) returns (o: nat)
    ensures o == Start(y, n)
  {
    o := y * n;
    StartIsProduct(y, n);
    assert o == y * n == Start(y, n);
  }

  lemma {:induction false} RowEnd(y: nat, h: nat, n: nat)
    requires y < h
    ensures Start(y + 1, n) <= Start(h, n)
  {
    if y + 1 < h {
      RowEnd(y, h - 1, n);
    }
  }

  /** Rows laid end to end. */
  function Flat(rows: seq<Bytes>): Bytes {
    if rows == [] then [] else Flat(rows[..|rows| - 1]) + rows[|rows| - 1]
  }

  ghost predicate AllOfWidth(rows: seq<Bytes>, w: nat) {
    forall r <- rows :: |r| == w
  }

  lemma AllOfWidthAppend(rows: seq<Bytes>, row: Bytes, w: nat)
    requires AllOfWidth(rows, w) && |row| == w
    ensures AllOfWidth(rows + [row], w)
  {}

  lemma {:induction false} FlatLength(rows: seq<Bytes>, w: nat)
    requires AllOfWidth(rows, w)
    ensures |Flat(rows)| == Start(|rows|, w)
  {
    if rows != [] {
      FlatLength(rows[..|rows| - 1], w);
    }
  }

  /** Row `y` of rows of equal width laid end to end. */
  lemma {:induction false} FlatRow(rows: seq<Bytes>, w: nat, y: nat)
    requires AllOfWidth(rows, w) && y < |rows|
    ensures |Flat(rows)| == Start(|rows|, w)
    ensures Start(y + 1, w) == Start(y, w) + w <= |Flat(rows)|
    ensures Flat(rows)[Start(y, w)..Start(y + 1, w)] == rows[y]
  {
    var n := |rows| - 1;
    var front, last := rows[..n], rows[n];
    FlatLength(rows, w);
    FlatLength(front, w);
    RowEnd(y, |rows|, w);
    assert Flat(rows) == Flat(front) + last && Start(y + 1, w) == Start(y, w) + w;
    hide Flat, Start;
    if y < n {
      FlatRow(front, w, y);
      SliceOfPrefix(Flat(front), last, Start(y, w), Start(y + 1, w));
    } else {
      SliceOfSuffix(Flat(front), last);
    }
  }

  lemma SliceOfPrefix(a: Bytes, b: Bytes, i: nat, j: nat)
    requires i <= j <= |a|
    ensures (a + b)[i..j] == a[i..j]
  {}

  lemma SliceOfSuffix(a: Bytes, b: Bytes)
    ensures (a + b)[|a|..|a| + |b|] == b
  {}

  lemma SliceOfSlice(s: Bytes, a: nat, b: nat, i: nat, j: nat)
    requires a <= b <= |s| && i <= j <= b - a
    ensures s[a..b][i..j] == s[a + i..a + j]
  {
    var left, right := s[a..b][i..j], s[a + i..a + j];
    assert forall k | 0 <= k < j - i :: left[k] == s[a..b][i + k] == right[k];
  }

  lemma FlatRowOfPrefix(rows: seq<Bytes>, w: nat, tail: Bytes, y: nat)
    requires AllOfWidth(rows, w) && y < |rows|
    ensures var z := Flat(rows) + tail;
            Start(|rows|, w) <= |z| && Start(y + 1, w) <= |z| && z[Start(y, w)..Start(y, w) + w] == rows[y]
  {
    FlatRow(rows, w, y);
    SliceOfPrefix(Flat(rows), tail, Start(y, w), Start(y + 1, w));
  }

  // ---- writing into one row ----

  /** Row `y` of rows `n` bytes apart. */
  function RowOf(s: Bytes, n: nat, y: nat): (row: Bytes)
    requires Start(y, n) + n <= |s|
    ensures |row| == n
  {
    s[Start(y, n)..Start(y, n) + n]
  }

  /** `s` with the bytes `t` written over it at `o`. */
  function Splice(s: Bytes, o: nat, t: Bytes): (r: Bytes)
    requires o + |t| <= |s|
    ensures |r| == |s|
  {
    s[..o] + t + s[o + |t|..]
  }

  lemma SpliceSlices(s: Bytes, o: nat, t: Bytes, i: nat, j: nat)
    requires o + |t| <= |s| && i <= j <= |s|
    ensures j <= o || o + |t| <= i ==> Splice(s, o, t)[i..j] == s[i..j]
    ensures i == o && o + |t| <= j ==> Splice(s, o, t)[i..j] == t + s[i..j][|t|..]
  {
    var r := Splice(s, o, t);
    assert forall k | 0 <= k < |s| :: r[k] == if o <= k < o + |t| then t[k - o] else s[k];
    if j <= o || o + |t| <= i {
      assert r[i..j] == s[i..j];
    } else if i == o && o + |t| <= j {
      assert r[i..j][..|t|] == t;
      assert r[i..j][|t|..] == s[i..j][|t|..];
    }
  }

  lemma RowsApart(y: nat, k: nat, n: nat)
    ensures y < k ==> Start(y, n) + n <= Start(k, n)
  {
    if y < k {
      RowEnd(y, k, n);
    }
  }

  /** Writing at the start of row `k` changes the head of that row and no other row. */
  lemma SpliceRow(s: Bytes, n: nat, k: nat, t: Bytes, y: nat)
    requires |t| <= n && Start(k, n) + n <= |s| && Start(y, n) + n <= |s|
    ensures RowOf(Splice(s, Start(k, n), t), n, y)
         == if y == k then t + RowOf(s, n, y)[|t|..] else RowOf(s, n, y)
  {
    hide Splice, Start;
    var o, at := Start(k, n), Start(y, n);
    RowsApart(y, k, n);
    RowsApart(k, y, n);
    SpliceSlices(s, o, t, at, at + n);
  }

  lemma SpliceNothing(s: Bytes, o: nat)
    requires o <= |s|
    ensures Splice(s, o, []) == s
  {}

  /** Two writes side by side are one. */
  lemma SpliceNext(s: Bytes, o: nat, t: Bytes, u: Bytes)
    requires o + |t| + |u| <= |s|
    ensures Splice(s, o, t + u) == Splice(Splice(s, o, t), o + |t|, u)
  {
    var once := Splice(s, o, t);
    assert once[..o + |t|] == s[..o] + t;
    assert once[o + |t| + |u|..] == s[o + |t| + |u|..];
    assert s[..o] + (t + u) == (s[..o] + t) + u;
  }
}
