/** 64-bit division built from the 32-bit DIVL instruction (lib/arithmetic.c).

    Machine integers are modelled by `int` with the range written out; every
    conversion or subtraction that can leave the range goes through `Wrap64`,
    `ToInt64`, `ToInt32` or `% TWO_32`, as the C types prescribe. */
module Arithmetic {

  const TWO_31: int := 0x8000_0000
  const TWO_32: int := 0x1_0000_0000
  const TWO_63: int := 0x8000_0000_0000_0000
  const TWO_64: int := 0x1_0000_0000_0000_0000

  type Uint32 = x: int | 0 <= x < 0x1_0000_0000
  type Uint64 = x: int | 0 <= x < 0x1_0000_0000_0000_0000
  type Int64 = x: int | -0x8000_0000_0000_0000 <= x < 0x8000_0000_0000_0000
  type Int32 = x: int | -0x8000_0000 <= x < 0x8000_0000

  /** Reduction of an exact result to `uint64_t`. */
  function Wrap64(x: int): (r: int)
    ensures 0 <= r < TWO_64
    ensures 0 <= x < TWO_64 ==> r == x
  {
    x % TWO_64
  }

  /** Conversion to `int64_t`, two's complement. */
  function ToInt64(x: int): (r: int)
    ensures -TWO_63 <= r < TWO_63
    ensures -TWO_63 <= x < TWO_63 ==> r == x
  {
    var u := Wrap64(x);
    if u < TWO_63 then u else u - TWO_64
  }

  /** Conversion to `int32_t`, two's complement. */
  function ToInt32(x: int): (r: int)
    ensures -TWO_31 <= r < TWO_31
    ensures -TWO_31 <= x < TWO_31 ==> r == x
  {
    var u := x % TWO_32;
    if u < TWO_31 then u else u - TWO_32
  }

  // ----- nonlinear arithmetic in single steps -----

  lemma MulLe(a: int, b: int, c: int)
    requires a <= b && 0 <= c
    ensures a * c <= b * c
  {
  }

  lemma Distribute(a: int, b: int, c: int)
    ensures (a + b) * c == a * c + b * c && (a - b) * c == a * c - b * c
  {
  }

  lemma CancelLt(a: int, b: int, c: int)
    requires a * c < b * c && 0 < c
    ensures a < b
  {
    if a >= b {
      MulLe(b, a, c);
      assert false;
    }
  }

  lemma DivisionDef(n: int, d: int)
    requires d > 0
    ensures n == (n / d) * d + n % d && 0 <= n % d < d
  {
  }

  /** Quotient and remainder are determined by their bounds. */
  lemma QuotientUnique(n: int, d: int, q: int)
    requires d > 0 && q * d <= n < q * d + d
    ensures n / d == q && n % d == n - q * d
  {
    DivisionDef(n, d);
    Distribute(n / d, 1, d);
    Distribute(q, 1, d);
    CancelLt(q, n / d + 1, d);
    CancelLt(n / d, q + 1, d);
  }

  lemma QuotientLower(n: int, d: int, q: int)
    requires d > 0 && q * d <= n
    ensures q <= n / d
  {
    DivisionDef(n, d);
    Distribute(n / d, 1, d);
    CancelLt(q, n / d + 1, d);
  }

  lemma QuotientUpper(n: int, d: int, q: int)
    requires d > 0 && n < q * d
    ensures n / d < q
  {
    DivisionDef(n, d);
    CancelLt(n / d, q, d);
  }

  /** 2^k. */
  function Pow2(k: nat): (p: int)
    ensures p > 0
  {
    if k == 0 then 1 else 2 * Pow2(k - 1)
  }

  lemma {:induction false} Pow2Add(a: nat, b: nat)
    ensures Pow2(a + b) == Pow2(a) * Pow2(b)
  {
    if a != 0 {
      Pow2Add(a - 1, b);
      assert Pow2(a + b) == 2 * (Pow2(a - 1) * Pow2(b));
    }
  }

  lemma {:induction false} Pow2Monotone(a: nat, b: nat)
    requires a <= b
    ensures Pow2(a) <= Pow2(b)
    decreases b
  {
    if a < b { Pow2Monotone(a, b - 1); }
  }

  lemma {:induction false} Pow2Step(k: nat)
    ensures Pow2(k + 1) == 2 * Pow2(k)
  {
  }

  lemma {:induction false} Pow2Small()
    ensures Pow2(8) == 0x100 && Pow2(4) == 16 && Pow2(2) == 4 && Pow2(1) == 2
  {
  }

  lemma Pow2Constants()
    ensures Pow2(16) == 0x1_0000 && Pow2(8) == 0x100 && Pow2(4) == 16 && Pow2(2) == 4 && Pow2(1) == 2
    ensures Pow2(31) == TWO_31 && Pow2(32) == TWO_32 && Pow2(33) == 2 * TWO_32
    ensures Pow2(63) == TWO_63 && Pow2(64) == TWO_64
  {
    hide Pow2;
    Pow2Small();
    Pow2Add(8, 8);
    Pow2Add(16, 16);
    Pow2Add(32, 32);
    Pow2Step(31);
    Pow2Step(32);
    Pow2Step(63);
  }

  /** The x86 DIVL instruction: it traps unless the quotient fits 32 bits, so
      the absence of a trap is a precondition every caller must establish. */
  method Divl(n: Uint64, d: Uint32) returns (q: Uint32)
    requires d != 0
    requires n / d < TWO_32
    ensures q == n / d
  {
    q := n / d;
  }

  /** `x` is the word shifted left by `n`, with no bit lost. */
  ghost predicate Shifted(word: int, n: nat, x: int) { x == word * Pow2(n) }

  /** One round of `nlz`: shifting left by `k` loses no bit when the top `k`
      bits are zero, and keeps `x` a power-of-two multiple of the word. */
  lemma ShiftStep(word: Uint32, x: Uint32, n: nat, k: nat, p: int)
    requires Shifted(word, n, x) && p == Pow2(k) && x * p < TWO_32
    ensures (x * p) % TWO_32 == x * p && Shifted(word, n + k, x * p)
  {
    hide Pow2;
    Pow2Add(n, k);
    assert word * (Pow2(n) * p) == (word * Pow2(n)) * p;
    assert 0 <= x * p;
  }

  lemma {:induction false} NotShifted(word: int)
    ensures Shifted(word, 0, word)
  {
  }

  lemma {:induction false} ShiftedIs(word: int, n: nat, x: int)
    requires Shifted(word, n, x)
    ensures word * Pow2(n) == x
  {
  }

  /** Number of leading zero bits of a nonzero 32-bit word: the shift that
      moves its highest 1 bit to position 31. */
  method Nlz(word: Uint32) returns (n: nat)
    requires word != 0
    ensures n <= 31
    ensures TWO_31 <= word * Pow2(n) < TWO_32
  {
    hide Pow2, Shifted;
    Pow2Constants();
    NotShifted(word);
    var x := word;
    n := 0;
    if x <= 0x0000_FFFF {
      ShiftStep(word, x, n, 16, 0x1_0000);
      n := n + 16;
      x := (x * 0x1_0000) % TWO_32;
    }
    if x <= 0x00FF_FFFF {
      ShiftStep(word, x, n, 8, 0x100);
      n := n + 8;
      x := (x * 0x100) % TWO_32;
    }
    if x <= 0x0FFF_FFFF {
      ShiftStep(word, x, n, 4, 0x10);
      n := n + 4;
      x := (x * 0x10) % TWO_32;
    }
    if x <= 0x3FFF_FFFF {
      ShiftStep(word, x, n, 2, 4);
      n := n + 2;
      x := (x * 4) % TWO_32;
    }
    if x <= 0x7FFF_FFFF {
      ShiftStep(word, x, n, 1, 2);
      n := n + 1;
      ShiftedIs(word, n, x * 2);
    } else {
      ShiftedIs(word, n, x);
    }
  }

  // ----- the large-divisor branch -----

  /** Iterated division is division by the product. */
  lemma DivTwice(n: int, a: int, b: int)
    requires 0 <= n && a > 0 && b > 0
    ensures n / a / b == n / (a * b)
  {
    var m := n / a;
    var q := m / b;
    DivisionDef(n, a);
    DivisionDef(m, b);
    MulLe(q * b, m, a);
    MulLe(m + 1, q * b + b, a);
    Distribute(m, 1, a);
    Distribute(q * b, b, a);
    assert q * b * a == q * (a * b) by { Reassociate(q, b, a); }
    assert a * b > 0 by { MulLe(1, b, a); }
    QuotientUnique(n, a * b, q);
  }

  lemma Reassociate(a: int, b: int, c: int)
    ensures a * b * c == a * (c * b) == a * c * b
  {
  }

  /** The truncated divisor `v * 2^(32-s)` that the estimate divides by lies
      below the true divisor by less than `2^(32-s)`, and is at least `2^(63-s)`. */
  lemma TruncatedDivisor(d: Uint64, s: nat, v: int)
    requires s <= 31 && TWO_31 <= (d / TWO_32) * Pow2(s) < TWO_32
    requires v == (d * Pow2(s)) / TWO_32
    ensures 0 <= d * Pow2(s) < TWO_64
    ensures TWO_31 <= v < TWO_32
    ensures Pow2(63 - s) <= v * Pow2(32 - s) <= d < v * Pow2(32 - s) + Pow2(32 - s)
  {
    var p, t, d1 := Pow2(s), Pow2(32 - s), d / TWO_32;
    Pow2Constants();
    Pow2Add(s, 32 - s);
    // d1 * p < 2^32 == t * p, hence d < (d1 + 1) * 2^32 <= t * 2^32
    CancelLt(d1, t, p);
    MulLe(d + 1, t * TWO_32, p);
    Distribute(d, 1, p);
    Reassociate(t, TWO_32, p);
    MulLe(d1 * TWO_32, d, p);
    Reassociate(d1, TWO_32, p);
    QuotientLower(d * p, TWO_32, TWO_31);
    // v * t * p <= d * p < (v * t + t) * p
    DivisionDef(d * p, TWO_32);
    Reassociate(v, t, p);
    Distribute(v * t, t, p);
    CancelLt(d, v * t + t, p);
    Distribute(d, 1, p);
    CancelLt(v * t, d + 1, p);
    Pow2Add(31, 32 - s);
    MulLe(TWO_31, v, t);
  }

  /** The error bound of the estimate: dividing by the truncated divisor `e`
      gives the true quotient or one more. */
  lemma EstimateBound(n: Uint64, d: Uint64, e: int, s: nat)
    requires s <= 31 && 0 < d <= n
    requires Pow2(63 - s) <= e <= d < e + Pow2(32 - s)
    ensures n / d <= n / e <= n / d + 1
  {
    var q := n / e;
    DivisionDef(n, d);
    DivisionDef(n, e);
    QuotientLower(n, d, 1);
    MulLe(e, d, n / d);
    QuotientLower(n, e, n / d);
    QuotientSmall(n, e, s);
    ErrorTerm(q, d - e, e, s);
    ErrorSplit(q, d, e);
    QuotientLower(n, d, q - 1);
  }

  lemma ErrorSplit(q: int, d: int, e: int)
    ensures (q - 1) * d == q * e - e + (q - 1) * (d - e)
  {
    Distribute(d - e, e, q - 1);
    Distribute(q, 1, e);
  }

  lemma QuotientSmall(n: Uint64, e: int, s: nat)
    requires s <= 31 && Pow2(63 - s) <= e
    ensures n / e < Pow2(s + 1)
  {
    hide Pow2;
    Pow2Constants();
    Pow2Add(s + 1, 63 - s);
    MulLe(Pow2(63 - s), e, Pow2(s + 1));
    QuotientUpper(n, e, Pow2(s + 1));
  }

  lemma ErrorTerm(q: int, delta: int, e: int, s: nat)
    requires s <= 31 && 1 <= q < Pow2(s + 1) && 0 <= delta < Pow2(32 - s) && Pow2(63 - s) <= e
    ensures (q - 1) * delta <= e
  {
    Pow2Constants();
    if s == 31 {
      MulLe(delta, 1, q - 1);
    } else {
      MulLe(delta, Pow2(32 - s), q - 1);
      MulLe(q - 1, Pow2(s + 1), Pow2(32 - s));
      Pow2Add(s + 1, 32 - s);
      Pow2Monotone(33, 63 - s);
    }
  }

  /** The estimate as the code computes it: halve, divide by `v`, shift right. */
  lemma LargeEstimate(n: Uint64, d: Uint64, s: nat, v: int)
    requires s <= 31 && 0 < d <= n
    requires TWO_31 <= v < TWO_32
    requires Pow2(63 - s) <= v * Pow2(32 - s) <= d < v * Pow2(32 - s) + Pow2(32 - s)
    ensures n / 2 / v < TWO_32
    ensures var q := n / 2 / v / Pow2(31 - s); n / d <= q <= n / d + 1
  {
    MulLe(TWO_31, v, TWO_32);
    QuotientUpper(n / 2, v, TWO_32);
    DivTwice(n, 2, v);
    DivTwice(n, 2 * v, Pow2(31 - s));
    Reassociate(v, 2, Pow2(31 - s));
    EstimateBound(n, d, v * Pow2(32 - s), s);
  }

  /** The final test `n - (q - 1) * d < d` picks the right candidate, and its
      64-bit arithmetic does not wrap. */
  lemma Correction(n: Uint64, d: Uint64, q: int)
    requires 2 <= d <= n && n / d <= q <= n / d + 1
    ensures 1 <= q <= n && 0 <= (q - 1) * d <= n
    ensures n - (q - 1) * d < d <==> q - 1 == n / d
  {
    DivisionDef(n, d);
    QuotientLower(n, d, 1);
    Distribute(q, 1, d);
    MulLe(q - 1, n / d, d);
    MulLe(1, q, d);
    QuotientBelow(n, d);
  }

  lemma QuotientBelow(n: int, d: int)
    requires 0 <= n && 2 <= d
    ensures n / d + 1 <= n || n <= 1
  {
    DivisionDef(n, d);
    if n / d >= 1 { MulLe(2, d, n / d); }
  }

  /** The small-divisor branch: schoolbook division in base 2^32. */
  lemma SmallDivisor(n: Uint64, d: Uint64)
    requires 0 < d < TWO_32
    ensures var x := TWO_32 * ((n / TWO_32) % d) + n % TWO_32;
            0 <= x < TWO_64 && 0 <= x / d < TWO_32 && x / d + TWO_32 * (n / TWO_32 / d) == n / d
  {
    var n1 := n / TWO_32;
    var x := TWO_32 * (n1 % d) + n % TWO_32;
    DivisionDef(n1, d);
    DivisionDef(x, d);
    QuotientUpper(x, d, TWO_32);
    QuotientLower(x, d, 0);
    var q := x / d + TWO_32 * (n1 / d);
    Distribute(x / d, TWO_32 * (n1 / d), d);
    Reassociate(TWO_32, n1 / d, d);
    QuotientUnique(n, d, q);
  }

  /** Unsigned 64-bit quotient.  That both `Divl` calls meet their precondition
      is the absence of a divide trap. */
  method Udiv64(n: Uint64, d: Uint64) returns (quotient: Uint64)
    requires d != 0
    ensures quotient == n / d
  {
    if d / TWO_32 == 0 {
      var n1 := n / TWO_32;
      var n0 := n % TWO_32;
      SmallDivisor(n, d);
      QuotientRange(n, d);
      var low := Divl(TWO_32 * (n1 % d) + n0, d);
      quotient := Wrap64(low + TWO_32 * (n1 / d));
    } else if n < d {
      QuotientUnique(n, d, 0);
      quotient := 0;
    } else {
      quotient := LargeDivisor(n, d);
    }
  }

  lemma QuotientRange(n: Uint64, d: Uint64)
    requires d != 0
    ensures 0 <= n / d <= n
  {
    QuotientLower(n, d, 0);
    MulLe(1, d, n + 1);
    QuotientUpper(n, d, n + 1);
  }

  /** The branch of `udiv64` for a divisor of more than 32 bits. */
  method LargeDivisor(n: Uint64, d: Uint64) returns (quotient: Uint64)
    requires TWO_32 <= d <= n
    ensures quotient == n / d
  {
    var d1 := d / TWO_32;
    var s := Nlz(d1);
    ghost var v' := d * Pow2(s) / TWO_32;
    TruncatedDivisor(d, s, v');
    LargeEstimate(n, d, s, v');
    var v := Wrap64(d * Pow2(s)) / TWO_32;
    var est := Divl(n / 2, v);
    var q := est / Pow2(31 - s);
    Correction(n, d, q);
    if Wrap64(n - Wrap64(Wrap64(q - 1) * d)) < d {
      quotient := Wrap64(q - 1);
    } else {
      quotient := q;
    }
  }

  // ----- signed division and remainders -----

  /** Division truncated toward zero, as section 6.5.5 of ISO C99 requires. */
  function TruncDiv(n: int, d: int): (q: int)
    requires d != 0
  {
    if n >= 0 then (if d > 0 then n / d else -(n / (-d)))
    else (if d > 0 then -((-n) / d) else (-n) / (-d))
  }

  function Abs(x: int): nat { if x >= 0 then x else -x }

  /** `TruncDiv` is the integer part: a remainder with the dividend's sign and
      smaller than the divisor determines the quotient. */
  lemma TruncDivMeaning(n: int, d: int, q: int)
    requires d != 0
    ensures q == TruncDiv(n, d) <==>
            var r := n - q * d; (if n >= 0 then 0 <= r else r <= 0) && Abs(r) < Abs(d)
  {
    var a, b := Abs(n), Abs(d);
    var m := if (n >= 0) == (d > 0) then q else -q;
    SignedProduct(q, d);
    assert n - q * d == if n >= 0 then a - m * b else -(a - m * b);
    DivisionDef(a, b);
    if 0 <= a - m * b < b { QuotientUnique(a, b, m); }
  }

  lemma {:induction false} SignedProduct(q: int, d: int)
    ensures (-q) * d == -(q * d) && q * -d == -(q * d) && (-q) * -d == q * d
  {
  }

  /** Signed quotient.  It is the truncated quotient for every input but
      -2^63 / -1, whose quotient has no 64-bit representation. */
  method Sdiv64(n: Int64, d: Int64) returns (q: Int64)
    requires d != 0
    ensures q == ToInt64(TruncDiv(n, d))
    ensures q == TruncDiv(n, d) <==> !(n == -TWO_63 && d == -1)
  {
    Negation(n);
    Negation(d);
    var nAbs: Uint64 := if n >= 0 then n else Wrap64(-Wrap64(n));
    var dAbs: Uint64 := if d >= 0 then d else Wrap64(-Wrap64(d));
    var qAbs := Udiv64(nAbs, dAbs);
    Magnitude(nAbs, dAbs);
    q := if (n < 0) == (d < 0) then ToInt64(qAbs) else ToInt64(-ToInt64(qAbs));
  }

  /** Unsigned negation yields the magnitude, also of -2^63. */
  lemma Negation(x: int)
    requires -TWO_63 <= x < TWO_63
    ensures x < 0 ==> Wrap64(-Wrap64(x)) == -x
  {
    if x < 0 {
      QuotientUnique(x, TWO_64, -1);
      QuotientUnique(-Wrap64(x), TWO_64, -1);
    }
  }

  lemma Magnitude(n: int, d: int)
    requires 0 <= n <= TWO_63 && 1 <= d <= TWO_63
    ensures 0 <= n / d <= TWO_63
    ensures n / d == TWO_63 ==> n == TWO_63 && d == 1
  {
    QuotientLower(n, d, 0);
    if d > 1 {
      MulLe(2, d, TWO_63);
      QuotientUpper(n, d, TWO_63);
    }
  }

  method Umod64(n: Uint64, d: Uint64) returns (r: Uint32)
    requires d != 0
    ensures r == (n % d) % TWO_32
  {
    var q := Udiv64(n, d);
    ghost var m := n % d;
    assert d * q == n - m && 0 <= m <= n by {
      DivisionDef(n, d);
      QuotientRange(n, d);
      MulLe(0, q, d);
    }
    r := Wrap64(n - Wrap64(d * q)) % TWO_32;
  }

  /** The 32-bit return type keeps every remainder exactly for the divisors up
      to 2^32: every larger one has a remainder it truncates. */
  lemma Umod64Exact(d: Uint64)
    requires d != 0
    ensures (forall n: Uint64 :: (n % d) % TWO_32 == n % d) <==> d <= TWO_32
  {
    if d > TWO_32 {
      var n: Uint64 := TWO_32;
      QuotientUnique(n, d, 0);
      assert (n % d) % TWO_32 != n % d;
    } else {
      forall n: Uint64 ensures (n % d) % TWO_32 == n % d {
        DivisionDef(n, d);
      }
    }
  }

  method Smod64(n: Int64, d: Int64) returns (r: Int32)
    requires d != 0
    ensures r == ToInt32(n - TruncDiv(n, d) * d)
  {
    var q := Sdiv64(n, d);
    r := ToInt32(ToInt64(n - ToInt64(d * q)));
    SmodWrap(n, d, q);
  }

  /** Every wrap on the way keeps the remainder modulo 2^32, also for the one
      quotient that does not fit (-2^63 / -1, whose remainder is 0). */
  lemma SmodWrap(n: Int64, d: Int64, q: Int64)
    requires d != 0 && q == ToInt64(TruncDiv(n, d))
    ensures ToInt32(ToInt64(n - ToInt64(d * q))) == ToInt32(n - TruncDiv(n, d) * d)
  {
    var t := TruncDiv(n, d);
    var k := Multiple64(t);
    var j := Multiple64(d * q);
    var i := Multiple64(n - ToInt64(d * q));
    var x, y := ToInt64(n - ToInt64(d * q)), n - t * d;
    assert t * d == d * q + (d * k) * TWO_64 by {
      Distribute(q, k * TWO_64, d);
      Reassociate(k, TWO_64, d);
    }
    Congruent32(x, y, (d * k + j - i) * TWO_32);
  }

  lemma Multiple64(x: int) returns (k: int)
    ensures x == ToInt64(x) + k * TWO_64
  {
    DivisionDef(x, TWO_64);
    k := if Wrap64(x) < TWO_63 then x / TWO_64 else x / TWO_64 + 1;
  }

  lemma Congruent32(x: int, y: int, k: int)
    requires x == y + k * TWO_32
    ensures ToInt32(x) == ToInt32(y)
  {
    DivisionDef(y, TWO_32);
    QuotientUnique(x, TWO_32, y / TWO_32 + k);
  }

  /** The signed remainder survives its 32-bit return type for every dividend
      exactly when the divisor's magnitude is at most 2^31. */
  lemma Smod64Exact(d: Int64)
    requires d != 0
    ensures (forall n: Int64 :: ToInt32(n - TruncDiv(n, d) * d) == n - TruncDiv(n, d) * d)
            <==> Abs(d) <= TWO_31
  {
    if Abs(d) <= TWO_31 {
      forall n: Int64 ensures ToInt32(n - TruncDiv(n, d) * d) == n - TruncDiv(n, d) * d {
        TruncDivMeaning(n, d, TruncDiv(n, d));
        FitsInt32(n - TruncDiv(n, d) * d);
      }
    } else {
      var n: Int64 := TWO_31;
      TruncDivMeaning(n, d, 0);
      assert ToInt32(n - TruncDiv(n, d) * d) != n - TruncDiv(n, d) * d;
    }
  }

  lemma FitsInt32(x: int)
    ensures ToInt32(x) == x <==> -TWO_31 <= x < TWO_31
  {
    DivisionDef(x, TWO_32);
    if -TWO_31 <= x < 0 { QuotientUnique(x, TWO_32, -1); }
  }
}
