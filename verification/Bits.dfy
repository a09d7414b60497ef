/** Shifts, ors and masks of unsigned integers, bit by bit. */
module Bits {

  function Pow2(k: nat): (p: nat)
    ensures p >= 1
  {
    if k == 0 then 1 else 2 * Pow2(k - 1)
  }

  /** `a << k`, in a type wide enough. */
  function Shl(a: nat, k: nat): nat {
    if k == 0 then a else 2 * Shl(a, k - 1)
  }

  /** `a >> k` */
  function Shr(a: nat, k: nat): nat {
    if k == 0 then a else Shr(a, k - 1) / 2
  }

  /** `a | b` */
  function Or(a: nat, b: nat): nat {
    if a == 0 then b else 2 * Or(a / 2, b / 2) + if a % 2 == 1 || b % 2 == 1 then 1 else 0
  }

  /** `a & b` */
  function And(a: nat, b: nat): nat {
    if a == 0 || b == 0 then 0 else 2 * And(a / 2, b / 2) + if a % 2 == 1 && b % 2 == 1 then 1 else 0
  }

  lemma {:induction false} OrZero(a: nat)
    ensures Or(a, 0) == a
  {
    if a > 0 {
      OrZero(a / 2);
    }
  }

  lemma {:induction false} OrCommutes(a: nat, b: nat)
    ensures Or(a, b) == Or(b, a)
  {
    if a == 0 || b == 0 {
      OrZero(a);
      OrZero(b);
    } else {
      OrCommutes(a / 2, b / 2);
    }
  }

  /** Fields without a bit in common are joined by adding them. */
  lemma {:induction false} OrIsSum(a: nat, k: nat, b: nat)
    requires b < Pow2(k)
    ensures Or(Shl(a, k), b) == Shl(a, k) + b
  {
    if k == 0 {
      OrZero(a);
    } else {
      var s := Shl(a, k - 1);
      OrIsSum(a, k - 1, b / 2);
      assert 2 * s / 2 == s && (2 * s) % 2 == 0;
      assert b == 2 * (b / 2) + b % 2;
    }
  }

  /** The lowest `k` bits. */
  function Low(a: nat, k: nat): nat {
    if k == 0 then 0 else 2 * Low(a / 2, k - 1) + a % 2
  }

  /** A mask of `k` ones keeps them. */
  lemma {:induction false} AndIsLow(a: nat, k: nat)
    ensures And(a, Pow2(k) - 1) == Low(a, k)
  {
    if k > 0 {
      AndIsLow(a / 2, k - 1);
      var m := Pow2(k - 1) - 1;
      assert Pow2(k) - 1 == 2 * m + 1 && (2 * m + 1) / 2 == m && (2 * m + 1) % 2 == 1;
      if a == 0 {
        LowZero(k);
      }
    }
  }

  lemma {:induction false} LowZero(k: nat)
    ensures Low(0, k) == 0
  {
    if k > 0 {
      LowZero(k - 1);
    }
  }

  /** Adding shift counts. */
  lemma {:induction false} ShlShl(a: nat, j: nat, k: nat)
    ensures Shl(a, j + k) == Shl(Shl(a, j), k)
  {
    if k > 0 {
      ShlShl(a, j, k - 1);
    }
  }

  lemma {:induction false} ShrShr(a: nat, j: nat, k: nat)
    ensures Shr(a, j + k) == Shr(Shr(a, j), k)
  {
    if k > 0 {
      ShrShr(a, j, k - 1);
    }
  }

  lemma ShortShifts(a: nat)
    ensures Shl(a, 2) == a * 4 && Shl(a, 3) == a * 8
    ensures Shr(a, 2) == a / 4 && Shr(a, 3) == a / 8
  {
    assert Shl(a, 2) == 2 * Shl(a, 1) && Shr(a, 2) == Shr(a, 1) / 2;
  }

  lemma LeftShifts(a: nat)
    ensures Shl(a, 5) == a * 0x20 && Shl(a, 8) == a * 0x100 && Shl(a, 11) == a * 0x800
  {
    hide Shl, Shr;
    ShortShifts(a);
    ShlShl(a, 3, 2);
    ShortShifts(a * 8);
    ShlShl(a, 5, 3);
    ShortShifts(a * 0x20);
    ShlShl(a, 8, 3);
    ShortShifts(a * 0x100);
  }

  lemma RightShifts(a: nat)
    ensures Shr(a, 4) == a / 0x10 && Shr(a, 5) == a / 0x20 && Shr(a, 8) == a / 0x100 && Shr(a, 11) == a / 0x800
  {
    hide Shl, Shr;
    ShortShifts(a);
    ShrShr(a, 2, 2);
    ShortShifts(a / 4);
    ShrShr(a, 3, 2);
    ShortShifts(a / 8);
    ShrShr(a, 5, 3);
    ShortShifts(a / 0x20);
    ShrShr(a, 8, 3);
    ShortShifts(a / 0x100);
  }

  /** The shift counts of the pixel formats. */
  lemma Shifts(a: nat)
    ensures Shl(a, 2) == a * 4 && Shl(a, 3) == a * 8 && Shl(a, 5) == a * 0x20
    ensures Shl(a, 8) == a * 0x100 && Shl(a, 11) == a * 0x800
    ensures Shr(a, 2) == a / 4 && Shr(a, 3) == a / 8 && Shr(a, 4) == a / 0x10 && Shr(a, 5) == a / 0x20
    ensures Shr(a, 8) == a / 0x100 && Shr(a, 11) == a / 0x800
  {
    hide Shl, Shr;
    ShortShifts(a);
    LeftShifts(a);
    RightShifts(a);
  }

  /** The lowest bits are the remainder. */
  lemma {:induction false} LowIsRemainder(a: nat, k: nat, q: nat, r: nat)
    requires a == q * Pow2(k) + r && r < Pow2(k)
    ensures Low(a, k) == r
  {
    if k > 0 {
      var n := q * Pow2(k - 1);
      assert q * Pow2(k) == 2 * n by { Twice(q, Pow2(k - 1)); }
      assert a / 2 == n + r / 2 && a % 2 == r % 2;
      LowIsRemainder(a / 2, k - 1, q, r / 2);
    }
  }

  lemma Twice(q: nat, p: nat)
    ensures q * (2 * p) == 2 * (q * p)
  {}

  lemma Unique(n: nat, d: nat, q: nat, r: nat)
    requires n == q * d + r && r < d
    ensures n % d == r
  {
    var p := n / d;
    assert n == p * d + n % d;
    Multiples(p, q, d);
    Multiples(q, p, d);
  }

  lemma Multiples(p: nat, q: nat, d: nat)
    ensures p > q ==> p * d >= q * d + d
  {
    if p > q {
      assert p * d == q * d + (p - q) * d;
      assert (p - q) * d == d + (p - q - 1) * d;
    }
  }

  /** The masks of the pixel formats. */
  lemma Masks(a: nat)
    ensures And(a, 0x1f) == a % 0x20 && And(a, 0x3f) == a % 0x40
  {
    hide Low, And;
    Powers();
    AndIsLow(a, 5);
    AndIsLow(a, 6);
    LowIsRemainder(a, 5, a / 0x20, a % 0x20);
    LowIsRemainder(a, 6, a / 0x40, a % 0x40);
  }

  lemma Powers()
    ensures Pow2(2) == 4 && Pow2(3) == 8 && Pow2(4) == 0x10 && Pow2(5) == 0x20 && Pow2(6) == 0x40 && Pow2(8) == 0x100
    ensures Pow2(11) == 0x800
  {
    assert Pow2(2) == 4 && Pow2(4) == 4 * Pow2(2) && Pow2(6) == 4 * Pow2(4) && Pow2(8) == 4 * Pow2(6);
    assert Pow2(3) == 2 * Pow2(2) && Pow2(5) == 2 * Pow2(4);
    assert Pow2(9) == 2 * Pow2(8) && Pow2(11) == 4 * Pow2(9);
  }
}
