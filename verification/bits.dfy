/** Bitwise exclusive or on natural numbers, defined one bit at a time, and
    the algebra the obfuscation transform relies on. */
module Bits {

  /** Bitwise XOR: the low bits combine without carry, the rest recursively. */
  function XorNat(a: nat, b: nat): nat
    decreases a + b
  {
    if a == 0 && b == 0 then 0
    else 2 * XorNat(a / 2, b / 2) + (if a % 2 == b % 2 then 0 else 1)
  }

  function Pow2(k: nat): (p: nat)
    ensures p >= 1
  {
    if k == 0 then 1 else 2 * Pow2(k - 1)
  }

  /** The recursive step holds for every pair, zero included: halving the
      XOR halves both operands, and its low bit is the XOR of theirs. */
  lemma {:induction false} XorHalves(a: nat, b: nat)
    ensures XorNat(a, b) / 2 == XorNat(a / 2, b / 2)
    ensures XorNat(a, b) % 2 == (if a % 2 == b % 2 then 0 else 1)
  {
    var q, r := XorNat(a / 2, b / 2), if a % 2 == b % 2 then 0 else 1;
    assert XorNat(a, b) == 2 * q + r;
    DivModTwo(XorNat(a, b), q, r);
  }

  lemma {:induction false} DivModTwo(x: nat, q: nat, r: nat)
    requires x == 2 * q + r && r < 2
    ensures x / 2 == q && x % 2 == r
  {
  }

  /** XOR of two `k`-bit numbers is a `k`-bit number. */
  lemma {:induction false} XorBelow(a: nat, b: nat, k: nat)
    requires a < Pow2(k) && b < Pow2(k)
    ensures XorNat(a, b) < Pow2(k)
    decreases k
  {
    if k > 0 && !(a == 0 && b == 0) {
      XorBelow(a / 2, b / 2, k - 1);
    }
  }

  lemma {:induction false} XorCommutes(a: nat, b: nat)
    ensures XorNat(a, b) == XorNat(b, a)
    decreases a + b
  {
    if !(a == 0 && b == 0) {
      XorCommutes(a / 2, b / 2);
    }
  }

  lemma {:induction false} XorSelf(a: nat)
    ensures XorNat(a, a) == 0
    decreases a
  {
    if a != 0 {
      XorSelf(a / 2);
    }
  }

  lemma {:induction false} XorZero(a: nat)
    ensures XorNat(a, 0) == a
    decreases a
  {
    if a != 0 {
      XorZero(a / 2);
    }
  }

  lemma {:induction false} XorAssociates(a: nat, b: nat, c: nat)
    ensures XorNat(XorNat(a, b), c) == XorNat(a, XorNat(b, c))
    decreases a + b + c
  {
    if !(a == 0 && b == 0 && c == 0) {
      XorHalvesLeft(a, b, c);
      XorHalvesRight(a, b, c);
      XorAssociates(a / 2, b / 2, c / 2);
      var x, y := XorNat(XorNat(a, b), c), XorNat(a, XorNat(b, c));
      assert x / 2 == y / 2;
      assert x % 2 == y % 2;
      WholeFromHalves(x, y);
    }
  }

  lemma {:induction false} XorHalvesLeft(a: nat, b: nat, c: nat)
    ensures XorNat(XorNat(a, b), c) / 2 == XorNat(XorNat(a / 2, b / 2), c / 2)
    ensures XorNat(XorNat(a, b), c) % 2 == (if (a % 2 == b % 2) == (c % 2 == 1) then 1 else 0)
  {
    XorHalves(a, b);
    XorHalves(XorNat(a, b), c);
  }

  lemma {:induction false} XorHalvesRight(a: nat, b: nat, c: nat)
    ensures XorNat(a, XorNat(b, c)) / 2 == XorNat(a / 2, XorNat(b / 2, c / 2))
    ensures XorNat(a, XorNat(b, c)) % 2 == (if (b % 2 == c % 2) == (a % 2 == 1) then 1 else 0)
  {
    XorHalves(b, c);
    XorHalves(a, XorNat(b, c));
  }

  /** Two numbers with the same half and the same low bit are equal. */
  lemma {:induction false} WholeFromHalves(x: nat, y: nat)
    requires x / 2 == y / 2 && x % 2 == y % 2
    ensures x == y
  {
  }

  /** XORing the same value twice undoes it. */
  lemma {:induction false} XorCancels(a: nat, b: nat)
    ensures XorNat(XorNat(a, b), b) == a
  {
    XorAssociates(a, b, b);
    XorSelf(b);
    XorZero(a);
  }

  /** XORing a non-zero mask always changes the value. */
  lemma {:induction false} XorNonZeroChanges(a: nat, m: nat)
    requires m != 0
    ensures XorNat(a, m) != a
  {
    XorCommutes(a, m);
    XorCancels(m, a);
    XorSelf(a);
  }
}
