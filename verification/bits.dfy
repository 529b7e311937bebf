/**
 * Python's bitwise operators on non-negative integers.
 *
 * The codec is written with `&`, `|`, `<<` and `>>`; here they are defined
 * bit by bit (for `&` and `|`) or arithmetically (for the shifts, which is
 * what Python does for non-negative operands), and the two facts the codec
 * relies on are proved: masking with 2^k - 1 keeps the low k bits, and OR-ing
 * a number with a value shifted above its top bit is addition.
 */
module Bits {
  import opened Radix

  /** a | b */
  function Or(a: nat, b: nat): nat
    decreases a + b
  {
    if a == 0 then b
    else if b == 0 then a
    else 2 * Or(a / 2, b / 2) + (if a % 2 == 1 || b % 2 == 1 then 1 else 0)
  }

  /** a & b */
  function And(a: nat, b: nat): nat
    decreases a + b
  {
    if a == 0 || b == 0 then 0
    else 2 * And(a / 2, b / 2) + (if a % 2 == 1 && b % 2 == 1 then 1 else 0)
  }

  /** a << k */
  function ShiftLeft(a: nat, k: nat): nat
  {
    a * Pow(2, k)
  }

  /** a >> k */
  function ShiftRight(a: nat, k: nat): nat
  {
    a / Pow(2, k)
  }

  /** Masking with 2^k - 1 keeps exactly the k low-order bits. */
  lemma {:induction false} AndLowMask(n: nat, k: nat)
    ensures And(n, Pow(2, k) - 1) == n % Pow(2, k)
    decreases k
  {
    if k == 0 {
      assert Pow(2, k) == 1;
    } else if n == 0 {
      assert And(n, Pow(2, k) - 1) == 0;
    } else {
      AndLowMask(n / 2, k - 1);
      AndLowMaskStep(n, k);
    }
  }

  /** The inductive step of AndLowMask: the lowest bit, then the k - 1 bits above it. */
  lemma AndLowMaskStep(n: nat, k: nat)
    requires n > 0 && k > 0
    requires And(n / 2, Pow(2, k - 1) - 1) == (n / 2) % Pow(2, k - 1)
    ensures And(n, Pow(2, k) - 1) == n % Pow(2, k)
  {
    var half := Pow(2, k - 1);
    var mask := Pow(2, k) - 1;
    assert mask / 2 == half - 1 && mask % 2 == 1 by {
      assert mask == 2 * (half - 1) + 1;
    }
    assert And(n, mask) == 2 * And(n / 2, half - 1) + n % 2;
    assert n % 2 + 2 * ((n / 2) % half) == n % Pow(2, k) by {
      DivModNested(n, 2, half);
    }
  }

  /**
   * OR-ing a number below 2^k with a value shifted left by k bits sets
   * disjoint bits, so it is the same as adding them.
   */
  lemma {:induction false} OrDisjointShift(a: nat, w: nat, k: nat)
    requires a < Pow(2, k)
    ensures Or(a, ShiftLeft(w, k)) == a + ShiftLeft(w, k)
    decreases k
  {
    if k > 0 && a > 0 && w > 0 {
      var b := ShiftLeft(w, k);
      assert b == 2 * ShiftLeft(w, k - 1);
      assert b / 2 == ShiftLeft(w, k - 1) && b % 2 == 0;
      assert Or(a, b) == 2 * Or(a / 2, b / 2) + a % 2;
      OrDisjointShift(a / 2, w, k - 1);
    }
  }
}
