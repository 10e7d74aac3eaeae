/** Bitwise "and" on unsigned words, and powers of two. */
module Bits {
  import opened Arithmetic

  /** `a & b`. */
  function And(a: nat, b: nat): (r: nat)
  {
    if a == 0 || b == 0 then 0 else (a % 2) * (b % 2) + 2 * And(a / 2, b / 2)
  }

  lemma {:induction false} AndSelf(a: nat)
    ensures And(a, a) == a
  {
    if a > 0 { AndSelf(a / 2); }
  }

  lemma {:induction false} ModStep(a: nat, p: nat)
    requires p > 0
    ensures a % (2 * p) == a % 2 + 2 * ((a / 2) % p)
  {
    DivisionDef(a / 2, p);
    var q := a / 2 / p;
    assert q * (2 * p) == 2 * (q * p);
    QuotientUnique(a, 2 * p, q);
  }

  lemma {:induction false} AndOddMask(a: nat, p: nat)
    requires p > 0
    ensures And(a, 2 * p - 1) == a % 2 + 2 * And(a / 2, p - 1)
  {
    assert (2 * p - 1) % 2 == 1 && (2 * p - 1) / 2 == p - 1;
  }

  /** Masking with 2^k - 1 takes the remainder modulo 2^k. */
  lemma {:induction false} AndMask(a: nat, k: nat)
    ensures And(a, Pow2(k) - 1) == a % Pow2(k)
  {
    hide And;
    if k == 0 {
      AndZero(a);
    } else {
      AndOddMask(a, Pow2(k - 1));
      AndMask(a / 2, k - 1);
      ModStep(a, Pow2(k - 1));
    }
  }

  lemma {:induction false} AndZero(a: nat)
    ensures And(a, 0) == 0
  {
  }

  /** `turn_off_least_1bit`. */
  function TurnOffLeast1Bit(x: nat): (r: nat)
    requires x > 0
  {
    And(x, x - 1)
  }

  /** Turning off the lowest 1 bit keeps the highest one, unless it is the same. */
  lemma {:induction false} TurnOffKeepsTop(x: nat, k: nat)
    requires Pow2(k) <= x < Pow2(k + 1)
    ensures x == Pow2(k) ==> TurnOffLeast1Bit(x) == 0
    ensures x != Pow2(k) ==> Pow2(k) <= TurnOffLeast1Bit(x) < x
  {
    if x % 2 == 1 {
      assert (x - 1) / 2 == x / 2 && (x - 1) % 2 == 0;
      AndSelf(x / 2);
      if k > 0 { assert Pow2(k) == 2 * Pow2(k - 1); }
    } else {
      assert k > 0 by { assert Pow2(1) == 2 && Pow2(0) == 1; }
      assert Pow2(k) == 2 * Pow2(k - 1) && Pow2(k + 1) == 2 * Pow2(k);
      assert (x - 1) / 2 == x / 2 - 1 && (x - 1) % 2 == 1;
      TurnOffKeepsTop(x / 2, k - 1);
    }
  }

  /** `is_power_of_2`. */
  predicate IsPowerOf2(x: nat) {
    x != 0 && TurnOffLeast1Bit(x) == 0
  }

  lemma {:induction false} HighestBit(x: nat) returns (k: nat)
    requires x > 0
    ensures Pow2(k) <= x < Pow2(k + 1)
  {
    if x == 1 {
      k := 0;
    } else {
      k := HighestBit(x / 2);
      k := k + 1;
    }
  }

  /** The bit trick decides being a power of two. */
  lemma {:induction false} PowerOf2Meaning(x: nat)
    ensures IsPowerOf2(x) <==> exists k: nat :: x == Pow2(k)
  {
    if x > 0 {
      var k := HighestBit(x);
      TurnOffKeepsTop(x, k);
      if j: nat :| x == Pow2(j) {
        if j < k { Pow2Monotone(j + 1, k); } else if k < j { Pow2Monotone(k + 1, j); }
      }
    }
  }
}
