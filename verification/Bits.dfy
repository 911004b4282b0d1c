/** Shifts and masks of natural numbers, bit by bit, and their arithmetic meaning. */
module Bits {

  function Pow2(n: nat): (r: nat)
    ensures r > 0
  {
    if n == 0 then 1 else 2 * Pow2(n - 1)
  }

  function Shl(x: nat, n: nat): nat {
    if n == 0 then x else 2 * Shl(x, n - 1)
  }

  function Shr(x: nat, n: nat): nat {
    if n == 0 then x else Shr(x / 2, n - 1)
  }

  function And(x: nat, y: nat): nat {
    if x == 0 then 0 else (if x % 2 == 1 && y % 2 == 1 then 1 else 0) + 2 * And(x / 2, y / 2)
  }

  /** The low k bits of a number. */
  function LowBits(x: nat, k: nat): nat {
    if k == 0 then 0 else x % 2 + 2 * LowBits(x / 2, k - 1)
  }

  /** A number with its low m bits cleared. */
  function ClearLow(x: nat, m: nat): nat {
    if m == 0 then x else 2 * ClearLow(x / 2, m - 1)
  }

  /** A shift multiplies by a power of two. */
  lemma {:induction false} ShlIsProduct(x: nat, n: nat)
    ensures Shl(x, n) == x * Pow2(n)
  {
    if n > 0 {
      ShlIsProduct(x, n - 1);
    }
  }

  lemma {:induction false} ShlOctet(x: nat, n: nat)
    ensures Shl(x, n + 8) == 256 * Shl(x, n)
  {
    assert Shl(x, n + 4) == 16 * Shl(x, n) by {
      assert Shl(x, n + 2) == 4 * Shl(x, n);
    }
    assert Shl(x, n + 8) == 16 * Shl(x, n + 4) by {
      assert Shl(x, n + 6) == 4 * Shl(x, n + 4);
    }
  }

  /** Shifts and low bits take a number apart at bit n. */
  lemma {:induction false} Parts(x: nat, upper: nat, lower: nat, n: nat)
    requires x == Shl(upper, n) + lower && lower < Pow2(n)
    ensures Shr(x, n) == upper && LowBits(x, n) == lower && ClearLow(x, n) == Shl(upper, n)
    decreases n
  {
    if n > 0 {
      Parts(x / 2, upper, lower / 2, n - 1);
    }
  }

  lemma {:induction false} AndZero(x: nat)
    ensures And(x, 0) == 0
  {
    if x > 0 {
      AndZero(x / 2);
    }
  }

  /** One bit of a conjunction. */
  lemma {:induction false} AndStep(x: nat, y: nat)
    ensures And(x, y) == (if x % 2 == 1 && y % 2 == 1 then 1 else 0) + 2 * And(x / 2, y / 2)
  {
  }

  lemma {:induction false} Ones(k: nat)
    requires k > 0
    ensures (Pow2(k) - 1) / 2 == Pow2(k - 1) - 1 && (Pow2(k) - 1) % 2 == 1
  {
  }

  /** Masking with k ones, on either side, keeps the low k bits. */
  lemma {:induction false} AndOnes(x: nat, k: nat)
    ensures And(x, Pow2(k) - 1) == And(Pow2(k) - 1, x) == LowBits(x, k)
    decreases k
  {
    if k == 0 {
      AndZero(x);
    } else {
      Ones(k);
      AndStep(x, Pow2(k) - 1);
      AndStep(Pow2(k) - 1, x);
      AndOnes(x / 2, k - 1);
    }
  }

  /** Masking a (k + m)-bit number with k ones followed by m zeros clears its low m bits. */
  lemma {:induction false} AndHighBits(x: nat, k: nat, m: nat)
    requires x < Pow2(k + m)
    ensures And(x, Shl(Pow2(k) - 1, m)) == ClearLow(x, m)
    decreases m
  {
    if m == 0 {
      AndOnes(x, k);
      ShlZero(k);
      Parts(x, 0, x, k);
    } else {
      AndStep(x, Shl(Pow2(k) - 1, m));
      AndHighBits(x / 2, k, m - 1);
    }
  }

  lemma {:induction false} ShlZero(n: nat)
    ensures Shl(0, n) == 0
  {
    if n > 0 {
      ShlZero(n - 1);
    }
  }

  lemma {:induction false} LowBitsOfShl(x: nat, k: nat, m: nat)
    ensures LowBits(Shl(x, m), k + m) == Shl(LowBits(x, k), m)
    decreases m
  {
    if m > 0 {
      LowBitsOfShl(x, k, m - 1);
    }
  }

  lemma {:induction false} LowBitsOfOnes(k: nat, m: nat)
    ensures LowBits(Pow2(k + m) - 1, k) == Pow2(k) - 1
    decreases k
  {
    if k > 0 {
      Ones(k + m);
      LowBitsOfOnes(k - 1, m);
    }
  }

  /** All k + m ones, shifted left by m and cut back to k + m bits. */
  lemma {:induction false} ShiftedOnes(k: nat, m: nat, ones: nat)
    requires ones == Pow2(k + m) - 1
    ensures And(ones, Shl(ones, m)) == Shl(Pow2(k) - 1, m)
  {
    AndOnes(Shl(ones, m), k + m);
    LowBitsOfShl(ones, k, m);
    LowBitsOfOnes(k, m);
  }

  /** Clearing the low m bits and then the low n bits, for n at least m, clears the low n bits. */
  lemma {:induction false} ClearLowTwice(x: nat, m: nat, n: nat)
    requires m <= n
    ensures ClearLow(ClearLow(x, m), n) == ClearLow(x, n)
    decreases m
  {
    if m > 0 {
      ClearLowTwice(x / 2, m - 1, n - 1);
    }
  }

  lemma {:induction false} ClearLowBound(x: nat, m: nat)
    ensures ClearLow(x, m) <= x
    decreases m
  {
    if m > 0 {
      ClearLowBound(x / 2, m - 1);
    }
  }
}
