/** The bit-trick macros of db_int.h, on naturals with the bits written out. */
module Bits {
  const DB_MIN_PGSIZE: nat := 512
  const DB_MAX_PGSIZE: nat := 65536

  /** uintmax_t has this many values. */
  const UINTMAX_BITS := 64

  function Pow2(k: nat): (r: nat)
    ensures r > 0
  {
    if k == 0 then 1 else 2 * Pow2(k - 1)
  }

  /** Bitwise and. */
  function And(x: nat, y: nat): nat {
    if x == 0 || y == 0 then 0
    else 2 * And(x / 2, y / 2) + if x % 2 == 1 && y % 2 == 1 then 1 else 0
  }

  /** Bitwise complement of a w-bit number. */
  function Not(x: nat, w: nat): nat
    requires x < Pow2(w)
  {
    Pow2(w) - 1 - x
  }

  /** Unsigned w-bit subtraction, which wraps. */
  function Minus(x: nat, y: nat, w: nat): nat
    requires x < Pow2(w) && y < Pow2(w)
  {
    (x + Pow2(w) - y) % Pow2(w)
  }

  // ---------- DB_ALIGN ----------

  /** DB_ALIGN(v, bound), which adds and masks w-bit numbers. */
  function DbAlign(v: nat, bound: nat, w: nat): nat
    requires 0 < bound <= Pow2(w)
  {
    And((v + bound - 1) % Pow2(w), Not(bound - 1, w))
  }

  lemma {:induction false} Pow2Mono(a: nat, b: nat)
    requires a <= b
    ensures Pow2(a) <= Pow2(b)
  {
    if a < b { Pow2Mono(a, b - 1); }
  }

  /** x shifted right by k bits. */
  function High(x: nat, k: nat): nat {
    if k == 0 then x else High(x / 2, k - 1)
  }

  /** x shifted left by k bits. */
  function Shl(x: nat, k: nat): nat {
    if k == 0 then x else 2 * Shl(x, k - 1)
  }

  lemma {:induction false} ShlIsProduct(x: nat, k: nat)
    ensures Shl(x, k) == Pow2(k) * x
  {
    if k > 0 {
      ShlIsProduct(x, k - 1);
      assert Pow2(k) * x == 2 * (Pow2(k - 1) * x);
    }
  }

  lemma {:induction false} ShlStep(x: nat, k: nat)
    ensures Shl(x + 1, k) == Shl(x, k) + Pow2(k)
  {
    if k > 0 { ShlStep(x, k - 1); }
  }

  lemma {:induction false} ShlMono(x: nat, y: nat, k: nat)
    requires x <= y
    ensures Shl(x, k) <= Shl(y, k)
  {
    if k > 0 { ShlMono(x, y, k - 1); }
  }

  /** Shifting right and back drops less than Pow2(k). */
  lemma {:induction false} ShiftBack(x: nat, k: nat)
    ensures Shl(High(x, k), k) <= x < Shl(High(x, k), k) + Pow2(k)
  {
    if k > 0 { ShiftBack(x / 2, k - 1); }
  }

  lemma {:induction false} AndAllOnes(x: nat, w: nat)
    requires x < Pow2(w)
    ensures And(x, Pow2(w) - 1) == x
    decreases w
  {
    if x != 0 {
      AndAllOnes(x / 2, w - 1);
      assert (Pow2(w) - 1) / 2 == Pow2(w - 1) - 1;
    }
  }

  lemma AndEven(x: nat, half: nat)
    ensures And(x, 2 * half) == 2 * And(x / 2, half)
  {
    assert 2 * half / 2 == half && 2 * half % 2 == 0;
  }

  /** Masking with the complement of 2^k - 1 clears the low k bits. */
  lemma {:induction false} MaskClearsLowBits(x: nat, k: nat, w: nat)
    requires k <= w && x < Pow2(w)
    ensures Pow2(k) <= Pow2(w)
    ensures And(x, Pow2(w) - Pow2(k)) == Shl(High(x, k), k)
    decreases w
  {
    hide And;
    Pow2Mono(k, w);
    if k == 0 {
      AndAllOnes(x, w);
    } else {
      Pow2Mono(k - 1, w - 1);
      MaskClearsLowBits(x / 2, k - 1, w - 1);
      AndEven(x, Pow2(w - 1) - Pow2(k - 1));
    }
  }

  lemma MulMono(p: nat, a: nat, b: nat)
    requires a <= b
    ensures p * a <= p * b
  {
    assert p * b == p * a + p * (b - a);
  }

  /** A quotient reaches c exactly when the dividend reaches c times the divisor. */
  lemma DivAtLeast(x: nat, p: nat, c: nat)
    requires p > 0
    ensures x / p >= c <==> x >= p * c
  {
    var q := x / p;
    assert x == p * q + x % p;
    if c <= q {
      MulMono(p, c, q);
    } else {
      MulMono(p, q + 1, c);
      assert p * (q + 1) == p * q + p;
    }
  }

  lemma ModSmall(x: nat, m: nat)
    requires x < m
    ensures x % m == x && (x + m) % m == x
  {
    assert x + m == m * 1 + x;
  }

  ghost predicate Multiple(x: nat, bound: nat) {
    exists q: nat :: x == bound * q
  }

  lemma AlignIsShift(v: nat, k: nat, w: nat)
    requires k <= w && v + Pow2(k) - 1 < Pow2(w)
    ensures Pow2(k) <= Pow2(w)
    ensures DbAlign(v, Pow2(k), w) == Shl(High(v + Pow2(k) - 1, k), k)
  {
    Pow2Mono(k, w);
    ModSmall(v + Pow2(k) - 1, Pow2(w));
    MaskClearsLowBits(v + Pow2(k) - 1, k, w);
  }

  lemma NotBelow(v: nat, k: nat, q: nat, n: nat)
    requires Shl(q, k) < v + Pow2(k) && v <= Shl(n, k)
    ensures Shl(q, k) <= Shl(n, k)
  {
    ShlStep(n, k);
    if n < q {
      ShlMono(n + 1, q, k);
    } else {
      ShlMono(q, n, k);
    }
  }

  /**
   * For a power-of-two bound DB_ALIGN gives the least multiple of the bound that is not below v,
   * as long as v + bound - 1 does not wrap.
   */
  lemma AlignIsLeastMultiple(v: nat, k: nat, w: nat)
    requires k <= w && v + Pow2(k) - 1 < Pow2(w)
    ensures Pow2(k) <= Pow2(w)
    ensures var r := DbAlign(v, Pow2(k), w);
            && v <= r < v + Pow2(k) && Multiple(r, Pow2(k))
            && forall m: nat :: Multiple(m, Pow2(k)) && v <= m ==> r <= m
  {
    AlignIsShift(v, k, w);
    hide DbAlign;
    var b, q := Pow2(k), High(v + Pow2(k) - 1, k);
    ShiftBack(v + b - 1, k);
    ShlIsProduct(q, k);
    forall m: nat | Multiple(m, b) && v <= m ensures DbAlign(v, b, w) <= m {
      var n: nat :| m == b * n;
      ShlIsProduct(n, k);
      NotBelow(v, k, q, n);
    }
  }

  // ---------- POWER_OF_TWO and IS_VALID_PAGESIZE ----------

  predicate PowerOfTwo(x: nat, w: nat)
    requires x < Pow2(w)
  {
    1 < Pow2(w) && And(x, Minus(x, 1, w)) == 0
  }

  ghost predicate IsPow2(x: nat) {
    exists k: nat :: x == Pow2(k)
  }

  lemma {:induction false} AndIdempotent(x: nat)
    ensures And(x, x) == x
  {
    if x > 0 { AndIdempotent(x / 2); }
  }

  lemma {:induction false} AndWithPredecessor(x: nat)
    requires x > 0
    ensures And(x, x - 1) == 0 <==> IsPow2(x)
  {
    if x == 1 {
      assert x == Pow2(0);
    } else if x % 2 == 1 {
      assert (x - 1) / 2 == x / 2;
      AndIdempotent(x / 2);
      forall k: nat ensures x != Pow2(k) {
        if k > 0 { assert Pow2(k) == 2 * Pow2(k - 1); }
      }
    } else {
      assert (x - 1) / 2 == x / 2 - 1;
      AndWithPredecessor(x / 2);
      if IsPow2(x / 2) {
        var k: nat :| x / 2 == Pow2(k);
        assert x == Pow2(k + 1);
      }
      if IsPow2(x) {
        var k: nat :| x == Pow2(k);
        assert k > 0 && x / 2 == Pow2(k - 1);
      }
    }
  }

  /** POWER_OF_TWO(x) holds exactly for zero and the powers of two. */
  lemma PowerOfTwoIsExact(x: nat, w: nat)
    requires 0 < w && x < Pow2(w)
    ensures PowerOfTwo(x, w) <==> x == 0 || IsPow2(x)
  {
    assert Pow2(w) == 2 * Pow2(w - 1);
    if x > 0 {
      ModSmall(x - 1, Pow2(w));
      assert Minus(x, 1, w) == x - 1;
      AndWithPredecessor(x);
    }
  }

  predicate IsValidPagesize(x: nat, w: nat)
    requires x < Pow2(w)
  {
    PowerOfTwo(x, w) && x >= DB_MIN_PGSIZE && x <= DB_MAX_PGSIZE
  }

  lemma {:induction false} Pow2Adds(a: nat, b: nat)
    ensures Pow2(a + b) == Pow2(a) * Pow2(b)
  {
    if a > 0 {
      Pow2Adds(a - 1, b);
      assert Pow2(a) * Pow2(b) == 2 * (Pow2(a - 1) * Pow2(b));
    }
  }

  lemma Pow2Of64()
    ensures Pow2(64) == 0x1_0000_0000_0000_0000
  {
    assert Pow2(4) == 16;
    Pow2Adds(4, 4);
    Pow2Adds(8, 8);
    hide Pow2;
    Pow2Adds(16, 16);
    Pow2Adds(32, 32);
  }

  /** What DB_ALIGN gives for a bound of four. */
  lemma AlignToFour(v: nat)
    requires v < 0x1_0000_0000_0000
    ensures Pow2(64) >= 0x1_0000_0000_0000_0000
    ensures DbAlign(v, 4, UINTMAX_BITS) == (v + 3) / 4 * 4
  {
    Pow2Of64();
    assert Pow2(2) == 4;
    AlignIsShift(v, 2, 64);
    var x := v + 3;
    assert High(x, 2) == High(x / 2, 1) == High(x / 2 / 2, 0) == x / 4;
    assert Shl(x / 4, 2) == 2 * Shl(x / 4, 1) == 4 * Shl(x / 4, 0);
  }

  /** (1 << i) * DB_MIN_PGSIZE */
  function PageSize(i: nat): nat {
    Pow2(i) * DB_MIN_PGSIZE
  }

  lemma PageSizes()
    ensures PageSize(0) == 512 && PageSize(1) == 1024 && PageSize(2) == 2048 && PageSize(3) == 4096
    ensures PageSize(4) == 8192 && PageSize(5) == 16384 && PageSize(6) == 32768 && PageSize(7) == 65536
  {
    assert Pow2(3) == 8;
    assert Pow2(6) == 64;
  }

  lemma {:induction false} PageSizeIsPow2(i: nat)
    ensures PageSize(i) == Pow2(i + 9)
  {
    if i == 0 {
      assert Pow2(3) == 8;
      assert Pow2(6) == 64;
      assert Pow2(9) == 512;
    } else {
      PageSizeIsPow2(i - 1);
    }
  }

  /** The valid page sizes are exactly the eight that the tuner simulates. */
  lemma ValidPagesizesAreTheEight(x: nat, w: nat)
    requires 17 <= w && x < Pow2(w)
    ensures IsValidPagesize(x, w) <==> exists i: nat :: i < 8 && x == PageSize(i)
  {
    PowerOfTwoIsExact(x, w);
    PageSizes();
    if IsValidPagesize(x, w) {
      var k: nat :| x == Pow2(k);
      PageSizeIsPow2(7);
      PageSizeIsPow2(0);
      if k < 9 {
        Pow2Mono(k, 8);
      } else if k > 16 {
        Pow2Mono(17, k);
      }
      PageSizeIsPow2(k - 9);
    }
    if i: nat :| i < 8 && x == PageSize(i) {
      PageSizeIsPow2(i);
      Pow2Mono(i + 9, 16);
      Pow2Mono(9, i + 9);
      PageSizeIsPow2(7);
      PageSizeIsPow2(0);
    }
  }
}
