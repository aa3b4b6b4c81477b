/** Bit operations on natural numbers. With the lowest k bits of x as `x % Power2(k)`, and shifts as products
    with powers of two and divisions by them, only `|` is left to define. */
module Bits {
  function Power2(k: nat): (p: nat)
    ensures p > 0
  {
    if k == 0 then 1 else 2 * Power2(k - 1)
  }

  /** x | y, bit by bit. */
  function Or(x: nat, y: nat): nat {
    if x == 0 then y else if y == 0 then x else 2 * Or(x / 2, y / 2) + (if x % 2 == 1 || y % 2 == 1 then 1 else 0)
  }

  lemma NoMultiple(m: int, d: int)
    requires -m < m * d < m
    ensures m * d == 0
  {
  }

  lemma UniqueRemainder(x: nat, m: nat, a: nat, r: nat)
    requires r < m && x == m * a + r
    ensures x % m == r
  {
    var b := x / m;
    assert x == m * b + x % m;
    assert m * (a - b) == x % m - r;
    NoMultiple(m, a - b);
  }

  lemma EvenMultiple(y: nat, p: nat)
    requires p > 0 && y % (2 * p) == 0
    ensures y % 2 == 0 && y / 2 % p == 0
  {
    var a := y / (2 * p);
    assert y == 2 * p * a == 2 * (p * a);
    assert y / 2 == p * a;
    UniqueRemainder(p * a, p, a, 0);
  }

  /** Where one operand has only bits below those of the other, `|` adds. */
  lemma {:induction false} OrIsSum(x: nat, y: nat, k: nat)
    requires x < Power2(k) && y % Power2(k) == 0
    ensures Or(x, y) == x + y == Or(y, x)
    decreases k
  {
    if k > 0 && x > 0 && y > 0 {
      EvenMultiple(y, Power2(k - 1));
      OrIsSum(x / 2, y / 2, k - 1);
    }
  }

  lemma Powers2()
    ensures Power2(0) == 1 && Power2(7) == 0x80 && Power2(14) == 0x4000 && Power2(21) == 0x20_0000 && Power2(28) == 0x1000_0000
    ensures Power2(3) == 0x8 && Power2(10) == 0x400 && Power2(17) == 0x2_0000 && Power2(24) == 0x100_0000 && Power2(31) == 0x8000_0000
    ensures Power2(1) == 2 && Power2(2) == 4 && Power2(4) == 16 && Power2(6) == 64 && Power2(25) == 0x200_0000
  {
    assert Power2(7) == 0x80;
    assert Power2(14) == 0x4000;
    assert Power2(21) == 0x20_0000;
    assert Power2(28) == 0x1000_0000;
  }
}
