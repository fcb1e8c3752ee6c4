/**
  Machine words as natural numbers: the bit operations the sources use, defined bit by
  bit, and the few arithmetic facts the proofs need about them.
 */
module Bits {

  function Pow2(k: nat): (r: nat)
    ensures r > 0
  {
    if k == 0 then 1 else 2 * Pow2(k - 1)
  }

  /** Bit i of n. */
  predicate Bit(n: nat, i: nat) {
    if i == 0 then n % 2 == 1 else Bit(n / 2, i - 1)
  }

  function And(x: nat, y: nat): nat {
    if x == 0 || y == 0 then 0
    else 2 * And(x / 2, y / 2) + (if x % 2 == 1 && y % 2 == 1 then 1 else 0)
  }

  function Or(x: nat, y: nat): nat {
    if x == 0 then y else if y == 0 then x
    else 2 * Or(x / 2, y / 2) + (if x % 2 == 1 || y % 2 == 1 then 1 else 0)
  }

  /** x & ~y */
  function AndNot(x: nat, y: nat): nat {
    if x == 0 then 0 else if y == 0 then x
    else 2 * AndNot(x / 2, y / 2) + (if x % 2 == 1 && y % 2 == 0 then 1 else 0)
  }

  /** The number of bits of n: 64 - clz(n) for a 64-bit n. */
  function BitLength(n: nat): nat {
    if n == 0 then 0 else 1 + BitLength(n / 2)
  }

  /** Trailing zero bits of n. */
  function Ctz(n: nat): nat
    requires n > 0
  {
    if n % 2 == 1 then 0 else 1 + Ctz(n / 2)
  }

  // Powers of two

  lemma {:induction false} Pow2Add(j: nat, k: nat)
    ensures Pow2(j + k) == Pow2(j) * Pow2(k)
  {
    if j > 0 { Pow2Add(j - 1, k); }
  }

  lemma {:induction false} Pow2Mono(j: nat, k: nat)
    requires j <= k
    ensures Pow2(j) <= Pow2(k)
  {
    if j < k { Pow2Mono(j, k - 1); }
  }

  lemma {:induction false} CtzOfPow2(k: nat)
    ensures Ctz(Pow2(k)) == k
  {
    if k > 0 { CtzOfPow2(k - 1); }
  }

  lemma {:induction false} BitLengthBounds(n: nat)
    requires n > 0
    ensures BitLength(n) >= 1 && Pow2(BitLength(n) - 1) <= n < Pow2(BitLength(n))
  {
    if n > 1 { BitLengthBounds(n / 2); }
  }

  // Splitting a word at bit k

  /** x = hi * 2^k + lo with lo < 2^k. */
  ghost predicate Split(x: nat, k: nat, hi: nat, lo: nat) {
    lo < Pow2(k) && x == hi * Pow2(k) + lo
  }

  lemma {:induction false} Halve(x: nat, k: nat, hi: nat, lo: nat)
    requires k > 0 && Split(x, k, hi, lo)
    ensures Split(x / 2, k - 1, hi, lo / 2) && x % 2 == lo % 2
  {
    var p := Pow2(k - 1);
    assert hi * (2 * p) == 2 * (hi * p);
  }

  lemma {:induction false} Double(z: nat, k: nat, hi: nat, lo: nat, z': nat, lo': nat)
    requires Split(z, k, hi, lo) && 0 <= z' - 2 * z < 2 && lo' == 2 * lo + (z' - 2 * z)
    ensures Split(z', k + 1, hi, lo')
  {
    var p := Pow2(k);
    assert hi * (2 * p) == 2 * (hi * p);
  }

  lemma {:induction false} AndStep(x: nat, y: nat)
    ensures And(x, y) == 2 * And(x / 2, y / 2) + (if x % 2 == 1 && y % 2 == 1 then 1 else 0)
  {}

  lemma {:induction false} AndSplit(x: nat, y: nat, k: nat, xh: nat, xl: nat, yh: nat, yl: nat)
    requires Split(x, k, xh, xl) && Split(y, k, yh, yl)
    ensures Split(And(x, y), k, And(xh, yh), And(xl, yl))
  {
    if k > 0 {
      Halve(x, k, xh, xl);
      Halve(y, k, yh, yl);
      AndSplit(x / 2, y / 2, k - 1, xh, xl / 2, yh, yl / 2);
      AndStep(x, y);
      AndStep(xl, yl);
      Double(And(x / 2, y / 2), k - 1, And(xh, yh), And(xl / 2, yl / 2), And(x, y), And(xl, yl));
    }
  }

  lemma {:induction false} OrStep(x: nat, y: nat)
    ensures Or(x, y) == 2 * Or(x / 2, y / 2) + (if x % 2 == 1 || y % 2 == 1 then 1 else 0)
  {}

  lemma {:induction false} OrSplit(x: nat, y: nat, k: nat, xh: nat, xl: nat, yh: nat, yl: nat)
    requires Split(x, k, xh, xl) && Split(y, k, yh, yl)
    ensures Split(Or(x, y), k, Or(xh, yh), Or(xl, yl))
  {
    if k > 0 {
      Halve(x, k, xh, xl);
      Halve(y, k, yh, yl);
      OrSplit(x / 2, y / 2, k - 1, xh, xl / 2, yh, yl / 2);
      OrStep(x, y);
      OrStep(xl, yl);
      Double(Or(x / 2, y / 2), k - 1, Or(xh, yh), Or(xl / 2, yl / 2), Or(x, y), Or(xl, yl));
    }
  }

  lemma {:induction false} AndNotStep(x: nat, y: nat)
    ensures AndNot(x, y) == 2 * AndNot(x / 2, y / 2) + (if x % 2 == 1 && y % 2 == 0 then 1 else 0)
  {}

  lemma {:induction false} AndNotSplit(x: nat, y: nat, k: nat, xh: nat, xl: nat, yh: nat, yl: nat)
    requires Split(x, k, xh, xl) && Split(y, k, yh, yl)
    ensures Split(AndNot(x, y), k, AndNot(xh, yh), AndNot(xl, yl))
  {
    if k > 0 {
      Halve(x, k, xh, xl);
      Halve(y, k, yh, yl);
      AndNotSplit(x / 2, y / 2, k - 1, xh, xl / 2, yh, yl / 2);
      AndNotStep(x, y);
      AndNotStep(xl, yl);
      Double(AndNot(x / 2, y / 2), k - 1, AndNot(xh, yh), AndNot(xl / 2, yl / 2), AndNot(x, y), AndNot(xl, yl));
    }
  }

  lemma {:induction false} AndSelf(x: nat)
    ensures And(x, x) == x
  {
    if x > 0 { AndSelf(x / 2); }
  }

  lemma {:induction false} AndAllOnes(x: nat, k: nat)
    requires x < Pow2(k)
    ensures And(x, Pow2(k) - 1) == x
  {
    if k > 0 { AndAllOnes(x / 2, k - 1); }
  }

  lemma {:induction false} Pow2Square(k: nat, v: nat)
    requires Pow2(k) == v
    ensures Pow2(k + k) == v * v
  {
    Pow2Add(k, k);
  }

  lemma {:induction false} Pow2Values()
    ensures Pow2(12) == 0x1000 && Pow2(13) == 0x2000 && Pow2(14) == 0x4000
    ensures Pow2(24) == 0x100_0000 && Pow2(25) == 0x200_0000
    ensures Pow2(38) == 0x40_0000_0000 && Pow2(50) == 0x4_0000_0000_0000 && Pow2(51) == 0x8_0000_0000_0000
    ensures Pow2(52) == 0x10_0000_0000_0000 && Pow2(64) == 0x1_0000_0000_0000_0000
  {
    assert Pow2(3) == 8;
    Pow2Square(3, 8);
    Pow2Square(6, 0x40);
    Pow2Square(12, 0x1000);
    Pow2Square(25, 0x200_0000);
    Pow2Square(13, 0x2000);
    Pow2Square(26, 0x400_0000);
    assert Pow2(4) == 16;
    Pow2Square(4, 16);
    Pow2Square(8, 0x100);
    Pow2Square(16, 0x1_0000);
    Pow2Square(32, 0x1_0000_0000);
    Pow2Square(19, 0x8_0000) by {
      assert Pow2(17) == 0x2_0000;
      assert Pow2(18) == 0x4_0000;
    }
  }
}
