/**
 * Bitwise arithmetic on unbounded naturals, standing in for the native
 * integer operators `>>`, `^` and `&` that the register step uses.
 * A number is read as its binary digits, least significant first:
 * `n % 2` is bit 0 and `n / 2` is `n >> 1`.
 */
module Bits {

  /** 2 raised to `k`. */
  function Pow2(k: nat): (r: nat)
    ensures r >= 1
  {
    if k == 0 then 1 else 2 * Pow2(k - 1)
  }

  /** The number of binary digits of `n` (0 for 0): `n` lies in [2^(k-1), 2^k). */
  function BitLength(n: nat): (k: nat)
    ensures n < Pow2(k)
    ensures n >= 1 ==> k >= 1 && Pow2(k - 1) <= n
  {
    if n == 0 then 0 else 1 + BitLength(n / 2)
  }

  /** Bitwise exclusive or: it never exceeds the sum of its operands. */
  function Xor(a: nat, b: nat): (r: nat)
    ensures r <= a + b
    decreases a + b
  {
    if a == 0 && b == 0 then 0 else (if a % 2 == b % 2 then 0 else 1) + 2 * Xor(a / 2, b / 2)
  }

  /** Bitwise and. */
  function And(a: nat, b: nat): (r: nat)
    ensures r <= a && r <= b
  {
    if a == 0 || b == 0 then 0 else (if a % 2 == 1 && b % 2 == 1 then 1 else 0) + 2 * And(a / 2, b / 2)
  }

  lemma Pow2Monotone(i: nat, j: nat)
    requires i <= j
    ensures Pow2(i) <= Pow2(j)
  {
    if i < j {
      Pow2Monotone(i, j - 1);
    }
  }

  /** The all-ones number of width `k` has exactly `k` binary digits. */
  lemma {:induction false} BitLengthOfAllOnes(k: nat)
    ensures BitLength(Pow2(k) - 1) == k
  {
    if k > 0 {
      assert (Pow2(k) - 1) / 2 == Pow2(k - 1) - 1;
      BitLengthOfAllOnes(k - 1);
    }
  }

  /** Zero is the neutral element of exclusive or. */
  lemma {:induction false} XorZero(a: nat)
    ensures Xor(a, 0) == a
  {
    if a != 0 {
      XorZero(a / 2);
    }
  }

  /** Zero is neutral on the left too. */
  lemma {:induction false} XorZeroLeft(b: nat)
    ensures Xor(0, b) == b
  {
    if b != 0 {
      XorZeroLeft(b / 2);
    }
  }

  /** Bitwise and does not depend on the order of its operands. */
  lemma {:induction false} AndCommutes(a: nat, b: nat)
    ensures And(a, b) == And(b, a)
  {
    if a != 0 && b != 0 {
      AndCommutes(a / 2, b / 2);
    }
  }

  /** Exclusive or with the same operand twice gives back the first operand. */
  lemma {:induction false} XorCancel(a: nat, b: nat)
    ensures Xor(Xor(a, b), b) == a
    decreases a + b
  {
    var x := Xor(a, b);
    if a == 0 && b == 0 {
    } else if x == 0 && b == 0 {
      XorZero(a);
    } else {
      var bit, rest := (if a % 2 == b % 2 then 0 else 1), Xor(a / 2, b / 2);
      assert x == bit + 2 * rest;
      assert x % 2 == bit && x / 2 == rest by {
        Digit(bit, rest);
      }
      assert Xor(rest, b / 2) == a / 2 by {
        XorCancel(a / 2, b / 2);
      }
      assert (if bit == b % 2 then 0 else 1) == a % 2;
      assert Xor(x, b) == (if x % 2 == b % 2 then 0 else 1) + 2 * Xor(x / 2, b / 2);
      assert a % 2 + 2 * (a / 2) == a;
    }
  }

  // A fact about natural-number arithmetic used by the proof above.

  /** Splitting `bit + 2 * rest` into its low bit and the rest. */
  lemma Digit(bit: nat, rest: nat)
    requires bit < 2
    ensures (bit + 2 * rest) % 2 == bit && (bit + 2 * rest) / 2 == rest
  {
  }

  /** Exclusive or of two `k`-bit numbers is a `k`-bit number. */
  lemma {:induction false} XorWidth(a: nat, b: nat, k: nat)
    requires a < Pow2(k) && b < Pow2(k)
    ensures Xor(a, b) < Pow2(k)
  {
    if k > 0 && !(a == 0 && b == 0) {
      XorWidth(a / 2, b / 2, k - 1);
    }
  }

  /**
   * When only `b` has bit `k - 1` as its top bit, the exclusive or keeps
   * that bit: the result lies in [2^(k-1), 2^k).
   */
  lemma {:induction false} XorKeepsTopBit(a: nat, b: nat, k: nat)
    requires k >= 1
    requires a < Pow2(k - 1) && Pow2(k - 1) <= b < Pow2(k)
    ensures Pow2(k - 1) <= Xor(a, b) < Pow2(k)
  {
    if k == 1 {
      assert a == 0 && b == 1;
      assert Xor(a, b) == 1 + 2 * Xor(0, 0);
    } else {
      XorKeepsTopBit(a / 2, b / 2, k - 1);
      XorWidth(a, b, k);
    }
  }

  /** Masking with the all-ones number of width `k` leaves a `k`-bit number unchanged. */
  lemma {:induction false} AndAllOnes(a: nat, k: nat)
    requires a < Pow2(k)
    ensures And(a, Pow2(k) - 1) == a
  {
    if k > 0 && a != 0 {
      assert (Pow2(k) - 1) % 2 == 1 && (Pow2(k) - 1) / 2 == Pow2(k - 1) - 1;
      AndAllOnes(a / 2, k - 1);
    }
  }
}
