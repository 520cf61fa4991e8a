/** Bitwise operators of the C code on non-negative integers. */
module Bits {

  /** Bit `i` of a number, as the factor `2^i` picks it out. */
  predicate BitSet(x: nat, weight: nat)
    requires weight > 0
  {
    x / weight % 2 == 1
  }

  /** `x ^ y`. */
  function Xor(x: nat, y: nat): nat {
    if x == 0 && y == 0 then 0 else 2 * Xor(x / 2, y / 2) + (x + y) % 2
  }

  /** `x >> 4 << 4`. */
  function DropLow4(x: nat): nat {
    x / 16 * 16
  }

  lemma {:induction false} XorSelf(x: nat)
    ensures Xor(x, x) == 0
  {
    if x > 0 {
      XorSelf(x / 2);
    }
  }

  lemma Halves(a: nat, b: nat, r: nat)
    requires r < 2
    ensures (2 * a) / 2 == a && (2 * b + r) / 2 == b && (2 * a + (2 * b + r)) % 2 == r
  {
  }

  lemma XorUnfold(x: nat, y: nat)
    requires x != 0 || y != 0
    ensures Xor(x, y) == 2 * Xor(x / 2, y / 2) + (x + y) % 2
  {
  }

  /** Halving both operands drops one bit of the result. */
  lemma XorHalf(a: nat, b: nat, r: nat)
    requires r < 2
    ensures Xor(2 * a, 2 * b + r) == 2 * Xor(a, b) + r
  {
    if a != 0 || b != 0 || r != 0 {
      XorUnfold(2 * a, 2 * b + r);
      Halves(a, b, r);
    }
  }

  lemma XorLow2(a: nat, r: nat)
    requires r < 4
    ensures Xor(4 * a, 4 * a + r) == r
  {
    XorHalf(2 * a, 2 * a + r / 2, r % 2);
    XorHalf(a, a, r / 2);
    XorSelf(a);
  }

  lemma XorLow3(a: nat, r: nat)
    requires r < 8
    ensures Xor(8 * a, 8 * a + r) == r
  {
    XorHalf(4 * a, 4 * a + r / 2, r % 2);
    XorLow2(a, r / 2);
  }

  lemma XorLow4(a: nat, r: nat)
    requires r < 16
    ensures Xor(16 * a, 16 * a + r) == r
  {
    XorHalf(8 * a, 8 * a + r / 2, r % 2);
    XorLow3(a, r / 2);
  }

  /** Clearing the low four bits and comparing leaves exactly those bits. */
  lemma XorDropLow4(x: nat)
    ensures Xor(DropLow4(x), x) == x % 16
  {
    XorLow4(x / 16, x % 16);
  }
}
