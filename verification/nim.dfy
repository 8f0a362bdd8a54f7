/**
 Nim-addition: the bitwise exclusive-or of two non-negative integers, which is
 what Python's `^` computes on the unbounded integers the table holds.
 */
module Nim {

  /** Bit `k` (0 = least significant) of the binary expansion of `a`. */
  function Bit(a: nat, k: nat): (b: nat)
    ensures b < 2
    decreases k
  {
    if k == 0 then a % 2 else Bit(a / 2, k - 1)
  }

  /** Bitwise exclusive-or, one binary digit at a time from the lowest. It is
      zero exactly when the two operands are equal. */
  function Xor(a: nat, b: nat): (r: nat)
    ensures r == 0 <==> a == b
    decreases a
  {
    if a == 0 then b
    else if b == 0 then a
    else
      var high, low := Xor(a / 2, b / 2), (a + b) % 2;
      assert low == 0 <==> a % 2 == b % 2;
      assert a == b <==> a / 2 == b / 2 && a % 2 == b % 2;
      2 * high + low
  }

  /** The lowest bit of `a ^ b` is the sum of the lowest bits modulo 2. */
  lemma XorParity(a: nat, b: nat)
    ensures Xor(a, b) % 2 == (a + b) % 2
  {
    if a != 0 && b != 0 {
      DigitSplit(Xor(a / 2, b / 2), (a + b) % 2);
    }
  }

  /** The bits of `a ^ b` above the lowest are the exclusive-or of the bits of
      `a` and `b` above their lowest. */
  lemma XorHalf(a: nat, b: nat)
    ensures Xor(a, b) / 2 == Xor(a / 2, b / 2)
  {
    if a == 0 {
      assert Xor(a / 2, b / 2) == b / 2;
    } else if b == 0 {
      assert Xor(a / 2, b / 2) == a / 2 by {
        if a / 2 != 0 { assert Xor(a / 2, 0) == a / 2; }
      }
    } else {
      DigitSplit(Xor(a / 2, b / 2), (a + b) % 2);
    }
  }

  /** Appending the binary digit `low` below `high`, and taking it off again. */
  lemma DigitSplit(high: nat, low: nat)
    requires low < 2
    ensures (2 * high + low) % 2 == low
    ensures (2 * high + low) / 2 == high
  {
  }

  /** `Xor` is exclusive-or on every bit position: this is the meaning of `^`. */
  lemma {:induction false} XorIsBitwise(a: nat, b: nat, k: nat)
    ensures Bit(Xor(a, b), k) == (Bit(a, k) + Bit(b, k)) % 2
    decreases k
  {
    XorParity(a, b);
    XorHalf(a, b);
    if k > 0 {
      XorIsBitwise(a / 2, b / 2, k - 1);
    }
  }

  /** Nim-addition is commutative: the split at `j` and the split at `i-1-j`
      give the same value. */
  lemma {:induction false} XorCommutes(a: nat, b: nat)
    ensures Xor(a, b) == Xor(b, a)
    decreases a
  {
    if a != 0 && b != 0 {
      XorCommutes(a / 2, b / 2);
    }
  }

  /** Zero is the identity of Nim-addition and every value is its own inverse:
      a convenience restatement of one unfolding of `Xor` and of its ensures. */
  lemma XorIdentities(a: nat)
    ensures Xor(a, 0) == a && Xor(0, a) == a
    ensures Xor(a, a) == 0
  {
  }
}
