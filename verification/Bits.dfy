/** Numbers and their bits: powers of two, division by them, and the bitwise operators of the driver on
    numbers that are never negative. */
module Bits {

  type Byte = b: nat | b < 0x100

  function Pow2(n: nat): (r: nat)
    ensures r > 0
  {
    if n == 0 then 1 else 2 * Pow2(n - 1)
  }

  lemma HalfModulo(v: nat, m: nat)
    requires m > 0
    ensures v % (2 * m) == 2 * (v / 2 % m) + v % 2
  {
    var q, r := v / 2 / m, v / 2 % m;
    assert v / 2 == q * m + r;
    assert v == 2 * (v / 2) + v % 2;
    assert v == q * (2 * m) + (2 * r + v % 2);
    Remainder(v, 2 * m, q, 2 * r + v % 2);
  }

  lemma Remainder(v: nat, m: nat, q: nat, r: nat)
    requires v == q * m + r && r < m
    ensures v % m == r && v / m == q
  {
    var d: int := v / m - q;
    assert v == (v / m) * m + v % m;
    assert d * m == r - v % m;
    AwayFromZero(d, m);
  }

  lemma AwayFromZero(d: int, m: nat)
    ensures d > 0 ==> d * m >= m
    ensures d < 0 ==> d * m + m <= 0
  {
  }

  lemma DivHalf(v: nat, m: nat)
    requires m > 0
    ensures v / 2 / m == v / (2 * m)
  {
    var h := v / 2;
    assert h == (h / m) * m + h % m;
    assert v == 2 * h + v % 2;
    assert v == (h / m) * (2 * m) + (2 * (h % m) + v % 2);
    Remainder(v, 2 * m, h / m, 2 * (h % m) + v % 2);
  }

  /** A number moved down by n bits. */
  function Shr(v: nat, n: nat): nat { if n == 0 then v else Shr(v / 2, n - 1) }

  lemma {:induction false} ShrIsDiv(v: nat, n: nat)
    ensures Shr(v, n) == v / Pow2(n)
  {
    if n > 0 {
      ShrIsDiv(v / 2, n - 1);
      DivHalf(v, Pow2(n - 1));
    }
  }

  /** The bits of both. */
  function And(x: nat, y: nat): nat
    decreases x
  {
    if x == 0 then 0 else 2 * And(x / 2, y / 2) + if x % 2 == 1 && y % 2 == 1 then 1 else 0
  }

  /** The bits of either. */
  function Or(x: nat, y: nat): nat
    decreases x + y
  {
    if x + y == 0 then 0 else 2 * Or(x / 2, y / 2) + if x % 2 == 1 || y % 2 == 1 then 1 else 0
  }

  /** Bit i of a number. */
  predicate Bit(v: nat, i: nat) { if i == 0 then v % 2 == 1 else Bit(v / 2, i - 1) }

  /** A mask of ones is a remainder. */
  lemma {:induction false} AndMask(x: nat, n: nat)
    ensures And(x, Pow2(n) - 1) == x % Pow2(n)
    decreases n
  {
    if n == 0 {
      AndZero(x);
    } else {
      AndMask(x / 2, n - 1);
      HalfModulo(x, Pow2(n - 1));
      assert (Pow2(n) - 1) / 2 == Pow2(n - 1) - 1;
    }
  }

  lemma {:induction false} AndZero(x: nat)
    ensures And(x, 0) == 0
  {
    if x > 0 {
      AndZero(x / 2);
    }
  }

  lemma {:induction false} OrZero(x: nat)
    ensures Or(0, x) == x && Or(x, 0) == x
  {
    if x > 0 {
      OrZero(x / 2);
    }
  }

  lemma OrStep(x: nat, y: nat)
    ensures Or(x, y) / 2 == Or(x / 2, y / 2) && (Or(x, y) % 2 == 1 <==> x % 2 == 1 || y % 2 == 1)
  {
  }

  /** A number moved up by n bits. */
  function Shl(y: nat, n: nat): nat { if n == 0 then y else 2 * Shl(y, n - 1) }

  lemma {:induction false} ShlIsTimes(y: nat, n: nat)
    ensures Shl(y, n) == y * Pow2(n)
  {
    if n > 0 {
      ShlIsTimes(y, n - 1);
    }
  }

  /** Numbers without a common bit: one below a power of two, the other a multiple of it. */
  lemma {:induction false} OrDisjoint(x: nat, y: nat, n: nat)
    requires x < Pow2(n)
    ensures Or(x, Shl(y, n)) == x + Shl(y, n)
    decreases n
  {
    if n == 0 {
      OrZero(y);
    } else {
      hide Or;
      OrDisjoint(x / 2, y, n - 1);
      var z := Shl(y, n - 1);
      Doubled(z);
      OrStep(x, 2 * z);
    }
  }

  lemma Doubled(z: nat)
    ensures 2 * z / 2 == z && 2 * z % 2 == 0
  {
  }

  lemma {:induction false} OrBits(x: nat, y: nat, i: nat)
    ensures Bit(Or(x, y), i) <==> Bit(x, i) || Bit(y, i)
    decreases i
  {
    hide Or;
    OrStep(x, y);
    if i > 0 {
      OrBits(x / 2, y / 2, i - 1);
    }
  }

  lemma {:induction false} PowBits(n: nat, i: nat)
    ensures Bit(Pow2(n), i) <==> i == n
    decreases n
  {
    if n == 0 {
      assert Pow2(0) == 1;
      if i > 0 {
        ZeroBits(i - 1);
      }
    } else if i > 0 {
      PowBits(n - 1, i - 1);
    }
  }

  lemma {:induction false} ZeroBits(i: nat)
    ensures !Bit(0, i)
    decreases i
  {
    if i > 0 {
      ZeroBits(i - 1);
    }
  }
}
