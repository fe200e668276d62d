/**
 * Bit-level reasoning on natural numbers: powers of two, single bits, and
 * bitwise exclusive-or of two n-bit numbers.
 *
 * Everything is defined by peeling off the least significant bit (division
 * and remainder by the constant 2), which keeps the proofs in linear
 * arithmetic.
 */
module Bits {

  function Pow2(k: nat): (p: nat)
    ensures p >= 1
  {
    if k == 0 then 1 else 2 * Pow2(k - 1)
  }

  /** Bit `i` of `x` (bit 0 is the least significant). */
  predicate Bit(x: nat, i: nat) {
    if i == 0 then x % 2 == 1 else Bit(x / 2, i - 1)
  }

  /** Bitwise exclusive-or of the low n bits of `a` and `b`. */
  function XorN(a: nat, b: nat, n: nat): (r: nat)
    ensures r < Pow2(n)
  {
    if n == 0 then 0
    else (if a % 2 != b % 2 then 1 else 0) + 2 * XorN(a / 2, b / 2, n - 1)
  }

  /** XorN is bitwise exclusive-or: below position n, a bit of the result is
      set exactly when the two operands differ in that bit. */
  lemma {:induction false} XorNBit(a: nat, b: nat, n: nat, i: nat)
    requires i < n
    ensures Bit(XorN(a, b, n), i) <==> (Bit(a, i) != Bit(b, i))
  {
    var rest := XorN(a / 2, b / 2, n - 1);
    assert XorN(a, b, n) / 2 == rest;
    if i > 0 {
      XorNBit(a / 2, b / 2, n - 1, i - 1);
    }
  }

  /** For an (n+1)-bit number, bit n is set exactly when it reaches 2^n. */
  lemma {:induction false} TopBit(x: nat, n: nat)
    requires x < Pow2(n + 1)
    ensures Bit(x, n) <==> x >= Pow2(n)
  {
    if n > 0 {
      TopBit(x / 2, n - 1);
    }
  }

  /** The top bit of an n-bit exclusive-or is the exclusive-or of the top bits. */
  lemma XorNTop(a: nat, b: nat, n: nat)
    requires a < Pow2(n + 1) && b < Pow2(n + 1)
    ensures XorN(a, b, n + 1) >= Pow2(n) <==> ((a >= Pow2(n)) != (b >= Pow2(n)))
  {
    TopBit(a, n);
    TopBit(b, n);
    TopBit(XorN(a, b, n + 1), n);
    XorNBit(a, b, n + 1, n);
  }

  /** Two n-bit numbers with the same bits are equal. */
  lemma {:induction false} BitsDetermine(x: nat, y: nat, n: nat)
    requires x < Pow2(n) && y < Pow2(n)
    requires forall i :: 0 <= i < n ==> (Bit(x, i) <==> Bit(y, i))
    ensures x == y
  {
    if n > 0 {
      assert Bit(x, 0) <==> Bit(y, 0);
      forall i | 0 <= i < n - 1
        ensures Bit(x / 2, i) <==> Bit(y / 2, i)
      {
        assert Bit(x, i + 1) <==> Bit(y, i + 1);
      }
      BitsDetermine(x / 2, y / 2, n - 1);
    }
  }

  /** Subtracting an n-bit number from 2^n - 1 flips each of its n bits. */
  lemma {:induction false} BitComplement(x: nat, n: nat, i: nat)
    requires x < Pow2(n) && i < n
    ensures Bit(Pow2(n) - 1 - x, i) <==> !Bit(x, i)
  {
    var c := Pow2(n) - 1 - x;
    assert c == 2 * (Pow2(n - 1) - 1 - x / 2) + (1 - x % 2);
    if i > 0 {
      assert c / 2 == Pow2(n - 1) - 1 - x / 2;
      BitComplement(x / 2, n - 1, i - 1);
    }
  }
}
