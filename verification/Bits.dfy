/** The bit operations of the C sources on unsigned words, written as arithmetic on
    naturals: shifting left by n multiplies by Pow2(n), shifting right by n divides
    by it, and masking with the low n bits is the remainder modulo Pow2(n). */
module Bits {

  function Pow2(n: nat): (p: nat)
    ensures p >= 1
  {
    if n == 0 then 1 else 2 * Pow2(n - 1)
  }

  /** Bitwise or. */
  function BitOr(a: nat, b: nat): nat {
    if a == 0 then b
    else if b == 0 then a
    else 2 * BitOr(a / 2, b / 2) + (if a % 2 == 1 || b % 2 == 1 then 1 else 0)
  }

  /** Bitwise exclusive or. */
  function BitXor(a: nat, b: nat): nat {
    if a == 0 then b
    else if b == 0 then a
    else 2 * BitXor(a / 2, b / 2) + (if a % 2 != b % 2 then 1 else 0)
  }

  /** Whether bit k of w is set. */
  predicate Bit(w: nat, k: nat) {
    if k == 0 then w % 2 == 1 else Bit(w / 2, k - 1)
  }

  lemma {:induction false} OrLowBit(a: nat, half: nat)
    requires a != 0
    ensures BitOr(a, 2 * half) == 2 * BitOr(a / 2, half) + a % 2
  {}

  lemma {:induction false} XorLowBit(a: nat, half: nat)
    requires a != 0
    ensures BitXor(a, 2 * half) == 2 * BitXor(a / 2, half) + a % 2
  {
    assert 2 * half / 2 == half && 2 * half % 2 == 0;
  }

  /** Or-ing a word into the zero bits above another adds it. */
  lemma {:induction false} OrIsAddition(a: nat, b: nat, k: nat)
    requires a < Pow2(k)
    ensures BitOr(a, b * Pow2(k)) == a + b * Pow2(k)
    decreases k
  {
    if k != 0 && a != 0 {
      var half := b * Pow2(k - 1);
      assert b * Pow2(k) == 2 * half;
      OrLowBit(a, half);
      OrIsAddition(a / 2, b, k - 1);
    }
  }

  lemma {:induction false} XorIsAddition(a: nat, b: nat, k: nat)
    requires a < Pow2(k)
    ensures BitXor(a, b * Pow2(k)) == a + b * Pow2(k)
    decreases k
  {
    if k != 0 && a != 0 {
      var half := b * Pow2(k - 1);
      assert b * Pow2(k) == 2 * half;
      XorLowBit(a, half);
      XorIsAddition(a / 2, b, k - 1);
    }
  }

  lemma {:induction false} BitOfZero(k: nat)
    ensures !Bit(0, k)
  {
    if k != 0 { BitOfZero(k - 1); }
  }

  lemma {:induction false} BitOfOr(a: nat, b: nat, k: nat)
    ensures Bit(BitOr(a, b), k) <==> Bit(a, k) || Bit(b, k)
    decreases k
  {
    BitOfZero(k);
    if k != 0 && a != 0 && b != 0 { BitOfOr(a / 2, b / 2, k - 1); }
  }

  lemma {:induction false} BitOfPow2(n: nat, k: nat)
    ensures Bit(Pow2(n), k) <==> n == k
  {
    if n == 0 {
      if k != 0 { BitOfZero(k - 1); }
    } else if k != 0 {
      BitOfPow2(n - 1, k - 1);
    }
  }

  /** The word with the low n bits set. */
  lemma {:induction false} BitOfMask(n: nat, k: nat)
    ensures Bit(Pow2(n) - 1, k) <==> k < n
  {
    if n == 0 {
      BitOfZero(k);
    } else if k != 0 {
      assert (Pow2(n) - 1) / 2 == Pow2(n - 1) - 1;
      BitOfMask(n - 1, k - 1);
    }
  }

  /** Words below Pow2(n) that agree on their low n bits are equal. */
  lemma {:induction false} SameBits(a: nat, b: nat, n: nat)
    requires a < Pow2(n) && b < Pow2(n)
    requires forall k: nat | k < n :: Bit(a, k) == Bit(b, k)
    ensures a == b
  {
    if n != 0 {
      forall k: nat | k < n - 1
        ensures Bit(a / 2, k) == Bit(b / 2, k)
      {
        assert Bit(a, k + 1) == Bit(b, k + 1);
      }
      SameBits(a / 2, b / 2, n - 1);
      assert Bit(a, 0) == Bit(b, 0);
    }
  }

  lemma {:induction false} OrStaysBelow(a: nat, b: nat, n: nat)
    requires a < Pow2(n) && b < Pow2(n)
    ensures BitOr(a, b) < Pow2(n)
    decreases n
  {
    if n != 0 && a != 0 && b != 0 { OrStaysBelow(a / 2, b / 2, n - 1); }
  }

  lemma {:induction false} Pow2Adds(m: nat, n: nat)
    ensures Pow2(m + n) == Pow2(m) * Pow2(n)
  {
    if m != 0 { Pow2Adds(m - 1, n); }
  }
}
